/** The node, release/acquire. */
module KvNodeRa {
  // The model of atomics/kvnode_atomic_ra.c.
  // A versioned node read without locks under release/acquire: one writer and any number of readers, every load_acq
  // and store_rel one step of the machine.

  import opened RaMachine

  const CELLS: nat := 8
  const VER: Loc := 0

  function Cell(i: nat): Loc { i + 1 }

  // ---------------------------------------------------------------- the code

  datatype WriterPc =
    | WIdle
    | WLoad(input: seq<int>)
    | WOdd(input: seq<int>, v: int)
    | WData(input: seq<int>, v: int, i: nat)

  datatype ReaderPc =
    | RIdle
    | RSnap
    | RData(snap: int, out: seq<int>)
    | RCheck(snap: int, out: seq<int>)
    | RDone(snap: int, out: seq<int>)

  /** last is the version this reader returned before. */
  datatype Reader = Reader(pc: ReaderPc, last: nat)

  /** The machine, the programs, and three histories kept for the statements: the input of every write begun
      (0 is the initial content), the time of every version, and the time of every write at every cell. */
  datatype Config = Config(
    m: State, writer: Tid, w: WriterPc, readers: map<Tid, Reader>,
    writes: seq<seq<int>>, verTimes: seq<Time>, cellTimes: seq<seq<Time>>)

  /** A release store that takes place at time t. */
  predicate StoreRel(m: State, l: Loc, v: int, t: Time, p: Tid, m': State) {
    p in m.views && Lt(m.views[p], l, t) && WriteStep(m, l, v, t, p, m')
  }

  /** An acquire load that reads message d. */
  predicate LoadAcq(m: State, l: Loc, d: Msg, p: Tid, m': State) {
    p in m.views && d in m.msgs && d.loc == l && AcqStep(m, d, p, m')
  }

  /** These are the machine's steps. */
  lemma AccessesAreSteps(m: State, l: Loc, v: int, t: Time, d: Msg, p: Tid, m': State)
    ensures StoreRel(m, l, v, t, p, m') ==> Step(m, WriteR(l, v), p, m')
    ensures LoadAcq(m, l, d, p, m') ==> Step(m, ReadA(l, d.val), p, m')
  {
    if StoreRel(m, l, v, t, p, m') { assert Lt(m.views[p], l, t) && WriteStep(m, l, v, t, p, m'); }
  }

  ghost predicate WriterNext(c: Config, c': Config) {
    match c.w
    case WIdle =>
      exists input: seq<int> :: |input| == CELLS && c' == c.(w := WLoad(input))
    case WLoad(input) =>
      exists d :: LoadAcq(c.m, VER, d, c.writer, c'.m) && c' == c.(m := c'.m, w := WOdd(input, d.val))
    case WOdd(input, v) =>
      exists t :: StoreRel(c.m, VER, v + 1, t, c.writer, c'.m) &&
        c' == c.(m := c'.m, w := WData(input, v, 0), writes := c.writes + [input], verTimes := c.verTimes + [t])
    case WData(input, v, i) =>
      if i < CELLS then
        i < |input| && i < |c.cellTimes| &&
        exists t :: StoreRel(c.m, Cell(i), input[i], t, c.writer, c'.m) &&
          c' == c.(m := c'.m, w := WData(input, v, i + 1), cellTimes := c.cellTimes[i := c.cellTimes[i] + [t]])
      else
        exists t :: StoreRel(c.m, VER, v + 2, t, c.writer, c'.m) &&
          c' == c.(m := c'.m, w := WIdle, verTimes := c.verTimes + [t])
  }

  /** Reader r moves to a program point; the machine moves to m'. */
  function Moved(c: Config, r: Tid, m': State, pc: ReaderPc): Config
    requires r in c.readers
  {
    c.(m := m', readers := c.readers[r := c.readers[r].(pc := pc)])
  }

  ghost predicate ReaderNext(c: Config, r: Tid, c': Config) {
    r in c.readers &&
    match c.readers[r].pc
    case RIdle => c' == Moved(c, r, c.m, RSnap)
    case RSnap =>
      exists d :: LoadAcq(c.m, VER, d, r, c'.m) &&
        c' == Moved(c, r, c'.m, if d.val % 2 == 1 then RSnap else RData(d.val, []))
    case RData(snap, out) =>
      if |out| < CELLS then
        exists d :: LoadAcq(c.m, Cell(|out|), d, r, c'.m) && c' == Moved(c, r, c'.m, RData(snap, out + [d.val]))
      else c' == Moved(c, r, c.m, RCheck(snap, out))
    case RCheck(snap, out) =>
      exists d :: LoadAcq(c.m, VER, d, r, c'.m) &&
        c' == Moved(c, r, c'.m, if d.val == snap then RDone(snap, out) else RSnap)
    case RDone(snap, _) => snap >= 0 && c' == c.(readers := c.readers[r := Reader(RIdle, snap)])
  }

  ghost predicate Next(c: Config, c': Config) {
    WriterNext(c, c') || exists r :: ReaderNext(c, r, c')
  }

  /** A load may read any message the reader's view does not rule out, however old. */
  lemma ReadsAnyMessage(c: Config, r: Tid, d: Msg)
    requires r in c.readers && r in c.m.views && d in c.m.msgs && Le(c.m.views[r], d.loc, d.time)
    ensures var m, pc := c.m.(views := c.m.views[r := Join(c.m.views[r], d.view)]), c.readers[r].pc;
      && (pc.RSnap? && d.loc == VER ==>
            ReaderNext(c, r, Moved(c, r, m, if d.val % 2 == 1 then RSnap else RData(d.val, []))))
      && (pc.RData? && |pc.out| < CELLS && d.loc == Cell(|pc.out|) ==>
            ReaderNext(c, r, Moved(c, r, m, RData(pc.snap, pc.out + [d.val]))))
      && (pc.RCheck? && d.loc == VER ==>
            ReaderNext(c, r, Moved(c, r, m, if d.val == pc.snap then RDone(pc.snap, pc.out) else RSnap)))
  {
    var m := c.m.(views := c.m.views[r := Join(c.m.views[r], d.view)]);
    assert d.loc == VER ==> LoadAcq(c.m, VER, d, r, m);
    assert c.readers[r].pc.RData? && d.loc == Cell(|c.readers[r].pc.out|) ==>
      LoadAcq(c.m, Cell(|c.readers[r].pc.out|), d, r, m);
    hide LoadAcq, Join;
  }

  ghost predicate IsRun(cs: seq<Config>) {
    |cs| > 0 && Init(cs[0]) && forall k :: 0 <= k < |cs| - 1 ==> Next(cs[k], cs[k + 1])
  }

  /** What make_node leaves: one message of value 0 at every location of the node, the version written first,
      and a writer that has seen them all. Readers start with any view. */
  ghost predicate Init(c: Config) {
    && c.w == WIdle && c.writes == [seq(CELLS, _ => 0)]
    && |c.verTimes| == 1 && |c.cellTimes| == CELLS
    && (forall i :: 0 <= i < CELLS ==> |c.cellTimes[i]| == 1)
    && NodeMade(c.m.msgs, c.verTimes[0], c.cellTimes)
    && c.writer in c.m.views && c.writer !in c.readers && c.readers.Keys <= c.m.views.Keys
    && VER in c.m.views[c.writer] && c.m.views[c.writer][VER] == c.verTimes[0]
    && (forall i :: 0 <= i < CELLS ==>
          Cell(i) in c.m.views[c.writer] && c.m.views[c.writer][Cell(i)] == c.cellTimes[i][0])
    && (forall d :: d in c.m.msgs ==> Below(d.view, c.m.views[c.writer]))
    && (forall r :: r in c.readers ==> c.readers[r] == Reader(RIdle, 0))
  }


  ghost predicate NodeMade(msgs: set<Msg>, t0: Time, cellTimes: seq<seq<Time>>)
    requires |cellTimes| == CELLS && forall i :: 0 <= i < CELLS ==> |cellTimes[i]| == 1
  {
    forall d :: d in msgs ==>
      && d.val == 0 && VER in d.view && d.view[VER] == t0
      && ((d.loc == VER && d.time == t0) || exists i: nat :: i < CELLS && d.loc == Cell(i) && d.time == cellTimes[i][0])
  }

  // ---------------------------------------------------------------- the invariant

  predicate Increasing(ts: seq<Time>) {
    forall a, b :: 0 <= a < b < |ts| ==> ts[a] < ts[b]
  }

  /** d is the store of version x; the stores of an even version also publish every cell of its write. */
  ghost predicate IsVersion(c: Config, d: Msg, x: nat)
    requires |c.cellTimes| == CELLS
  {
    && x < |c.verTimes| && d.time == c.verTimes[x] && d.val == x && VER in d.view && d.view[VER] == d.time
    && (x % 2 == 0 && x > 0 ==> AllPublished(c, d.view, x / 2))
  }

  /** The view knows write k of cell i. */
  predicate Published(c: Config, view: View, i: nat, k: nat)
    requires |c.cellTimes| == CELLS && i < CELLS
  {
    k < |c.cellTimes[i]| && Cell(i) in view && view[Cell(i)] >= c.cellTimes[i][k]
  }

  predicate AllPublished(c: Config, view: View, k: nat)
    requires |c.cellTimes| == CELLS
  {
    forall i: nat :: i < CELLS ==> Published(c, view, i, k)
  }

  /** The version in force while write k stores its cells. */
  function Under(k: nat): nat { if k == 0 then 0 else 2 * k - 1 }

  /** d is what write k stored in cell i. */
  ghost predicate IsCell(c: Config, d: Msg, i: nat, k: nat)
    requires |c.cellTimes| == CELLS && i < CELLS
  {
    k < |c.cellTimes[i]| && k < |c.writes| && i < |c.writes[k]| && Under(k) < |c.verTimes| &&
    d.time == c.cellTimes[i][k] && d.val == c.writes[k][i] &&
    VER in d.view && d.view[VER] == c.verTimes[Under(k)]
  }

  /** Every message is a version or a cell of a write. */
  ghost predicate Explained(c: Config, d: Msg)
    requires |c.cellTimes| == CELLS
  {
    || (d.loc == VER && exists x: nat :: IsVersion(c, d, x))
    || (exists i: nat, k: nat :: i < CELLS && d.loc == Cell(i) && IsCell(c, d, i, k))
  }

  ghost predicate MsgInv(c: Config)
    requires |c.cellTimes| == CELLS
  {
    forall d :: d in c.m.msgs ==> Explained(c, d)
  }

  /** How many writes a cell has seen and how many versions there are, by the writer's program point. */
  ghost predicate WriterInv(c: Config)
    requires |c.cellTimes| == CELLS
  {
    var K := |c.writes| - 1;
    && c.writer in c.m.views && c.writer !in c.readers
    && K >= 0 && (forall k :: 0 <= k <= K ==> |c.writes[k]| == CELLS)
    && (match c.w
        case WIdle => true
        case WLoad(input) => |input| == CELLS
        case WOdd(input, v) => |input| == CELLS && v == 2 * K
        case WData(input, v, i) => K >= 1 && i <= CELLS && input == c.writes[K] && v == 2 * (K - 1))
    && |c.verTimes| == (if c.w.WData? then 2 * K else 2 * K + 1)
    && (forall j :: 0 <= j < CELLS ==> |c.cellTimes[j]| == if c.w.WData? && j >= c.w.i then K else K + 1)
    && Increasing(c.verTimes) && (forall j :: 0 <= j < CELLS ==> Increasing(c.cellTimes[j]))
    && VER in c.m.views[c.writer] && c.m.views[c.writer][VER] == c.verTimes[|c.verTimes| - 1]
    && (forall j :: 0 <= j < CELLS ==>
          && Cell(j) in c.m.views[c.writer]
          && c.m.views[c.writer][Cell(j)] == c.cellTimes[j][|c.cellTimes[j]| - 1])
    && (forall d :: d in c.m.msgs ==> Below(d.view, c.m.views[c.writer]))
  }

  /** A reader that took snap has seen all of its write; and unless it has by now seen a later version,
      what it copied so far is that write. */
  ghost predicate CopyInv(c: Config, view: View, snap: int, out: seq<int>)
    requires |c.cellTimes| == CELLS
  {
    && 0 <= snap < |c.verTimes| && snap % 2 == 0
    && snap / 2 < |c.writes| && |out| <= CELLS && |c.writes[snap / 2]| == CELLS
    && VER in view && view[VER] >= c.verTimes[snap]
    && (snap > 0 ==> AllPublished(c, view, snap / 2))
    && (view[VER] == c.verTimes[snap] ==> forall j :: 0 <= j < |out| ==> out[j] == c.writes[snap / 2][j])
  }

  ghost predicate ReaderInv(c: Config, r: Tid)
    requires |c.cellTimes| == CELLS && r in c.readers
  {
    && r in c.m.views
    && (c.readers[r].last > 0 ==>
          && c.readers[r].last < |c.verTimes| && VER in c.m.views[r]
          && c.m.views[r][VER] >= c.verTimes[c.readers[r].last])
    && (match c.readers[r].pc
        case RIdle => true
        case RSnap => true
        case RData(snap, out) => CopyInv(c, c.m.views[r], snap, out) && c.readers[r].last <= snap
        case RCheck(snap, out) => CopyInv(c, c.m.views[r], snap, out) && |out| == CELLS && c.readers[r].last <= snap
        case RDone(snap, out) =>
          CopyInv(c, c.m.views[r], snap, out) && out == c.writes[snap / 2] && c.readers[r].last <= snap)
  }

  ghost predicate Inv(c: Config) {
    |c.cellTimes| == CELLS && MsgInv(c) && WriterInv(c) && forall r :: r in c.readers ==> ReaderInv(c, r)
  }

  // ---------------------------------------------------------------- histories only grow

  predicate Extends(c: Config, c': Config) {
    c.writes <= c'.writes && c.verTimes <= c'.verTimes && |c.cellTimes| == |c'.cellTimes| == CELLS &&
    forall i :: 0 <= i < CELLS ==> c.cellTimes[i] <= c'.cellTimes[i]
  }

  lemma MsgInvGrows(c: Config, c': Config, d: Msg)
    requires |c.cellTimes| == CELLS && MsgInv(c) && d in c.m.msgs && Extends(c, c')
    ensures Explained(c', d)
  {
    assert Explained(c, d);
    if x: nat :| d.loc == VER && IsVersion(c, d, x) {
      if x % 2 == 0 && x > 0 { PublishedGrows(c, c', d.view, x / 2); }
      assert IsVersion(c', d, x);
    } else {
      var i: nat, k: nat :| i < CELLS && d.loc == Cell(i) && IsCell(c, d, i, k);
      assert c.cellTimes[i] <= c'.cellTimes[i];
      assert IsCell(c', d, i, k);
    }
  }

  lemma CopyGrows(c: Config, c': Config, view: View, snap: int, out: seq<int>)
    requires |c.cellTimes| == CELLS && CopyInv(c, view, snap, out) && Extends(c, c')
    ensures CopyInv(c', view, snap, out)
  {
    if snap > 0 { PublishedGrows(c, c', view, snap / 2); }
  }

  lemma PublishedGrows(c: Config, c': Config, view: View, k: nat)
    requires |c.cellTimes| == CELLS && AllPublished(c, view, k) && Extends(c, c')
    ensures AllPublished(c', view, k)
  {
    forall i: nat | i < CELLS ensures Published(c', view, i, k) {
      assert Published(c, view, i, k) && c.cellTimes[i] <= c'.cellTimes[i];
    }
  }

  lemma ReaderGrows(c: Config, c': Config, r: Tid)
    requires |c.cellTimes| == CELLS && r in c.readers && ReaderInv(c, r) && Extends(c, c')
    requires r in c'.readers && c'.readers[r] == c.readers[r] && r in c'.m.views && c'.m.views[r] == c.m.views[r]
    ensures ReaderInv(c', r)
  {
    match c.readers[r].pc
    case RData(snap, out) => CopyGrows(c, c', c.m.views[r], snap, out);
    case RCheck(snap, out) => CopyGrows(c, c', c.m.views[r], snap, out);
    case RDone(snap, out) => CopyGrows(c, c', c.m.views[r], snap, out);
    case _ =>
  }

  // ---------------------------------------------------------------- reader steps

  /** A message at the version location is the version its value says. */
  lemma VersionOf(c: Config, d: Msg)
    requires |c.cellTimes| == CELLS && MsgInv(c) && d in c.m.msgs && d.loc == VER
    ensures d.val >= 0 && IsVersion(c, d, d.val)
  {
    assert Explained(c, d);
  }

  lemma CellOf(c: Config, d: Msg, i: nat) returns (k: nat)
    requires |c.cellTimes| == CELLS && MsgInv(c) && d in c.m.msgs && d.loc == Cell(i) && i < CELLS
    ensures IsCell(c, d, i, k)
  {
    assert Explained(c, d);
    k :| IsCell(c, d, i, k);
  }

  /** Later times are later versions, and later writes. */
  lemma TimesOrder(ts: seq<Time>, a: nat, b: nat)
    requires Increasing(ts) && a < |ts| && b < |ts|
    ensures ts[a] <= ts[b] <==> a <= b
  {
  }

  lemma PublishedJoin(c: Config, v1: View, v2: View, k: nat)
    requires |c.cellTimes| == CELLS && (AllPublished(c, v1, k) || AllPublished(c, v2, k))
    ensures AllPublished(c, Join(v1, v2), k)
  {
    forall i: nat | i < CELLS ensures Published(c, Join(v1, v2), i, k) {
      assert AllPublished(c, v1, k) ==> Published(c, v1, i, k);
      assert AllPublished(c, v2, k) ==> Published(c, v2, i, k);
    }
  }

  /** Taking an even version starts a copy of its write. */
  lemma SnapCopies(c: Config, view: View, d: Msg)
    requires |c.cellTimes| == CELLS && WriterInv(c) && d.val >= 0 && IsVersion(c, d, d.val) && d.val % 2 == 0
    ensures CopyInv(c, Join(view, d.view), d.val, [])
  {
    if d.val > 0 { PublishedJoin(c, view, d.view, d.val / 2); }
  }

  /** Copying one more cell: it is of the same write, or the reader has now seen that a later one began. */
  lemma CopyOne(c: Config, view: View, snap: int, out: seq<int>, d: Msg, k: nat)
    requires |c.cellTimes| == CELLS && WriterInv(c) && CopyInv(c, view, snap, out) && |out| < CELLS
    requires IsCell(c, d, |out|, k) && Le(view, Cell(|out|), d.time)
    ensures CopyInv(c, Join(view, d.view), snap, out + [d.val])
  {
    var j, view' := |out|, Join(view, d.view);
    assert Increasing(c.cellTimes[j]) && (snap > 0 ==> Published(c, view, j, snap / 2));
    if snap > 0 {
      TimesOrder(c.cellTimes[j], snap / 2, k);
      PublishedJoin(c, view, d.view, snap / 2);
    }
    assert k >= snap / 2;
    TimesOrder(c.verTimes, Under(k), snap);
    TimesOrder(c.verTimes, snap, Under(k));
  }

  /** A second look at the version that finds it unchanged certifies the copy. */
  lemma CheckCertifies(c: Config, view: View, snap: int, out: seq<int>, d: Msg)
    requires |c.cellTimes| == CELLS && WriterInv(c) && CopyInv(c, view, snap, out) && |out| == CELLS
    requires d.val == snap && IsVersion(c, d, snap) && Le(view, VER, d.time)
    ensures out == c.writes[snap / 2] && CopyInv(c, Join(view, d.view), snap, out)
  {
    if snap > 0 { PublishedJoin(c, view, d.view, snap / 2); }
  }

  /** A read of a version is no older than the last one returned. */
  lemma NoOlder(c: Config, view: View, last: nat, d: Msg)
    requires |c.cellTimes| == CELLS && Increasing(c.verTimes) && d.val >= 0 && IsVersion(c, d, d.val) &&
      Le(view, VER, d.time)
    requires last > 0 ==> last < |c.verTimes| && VER in view && view[VER] >= c.verTimes[last]
    ensures last <= d.val
  {
    if last > 0 { TimesOrder(c.verTimes, last, d.val); }
  }

  /** The reader's configuration after it acquired message d. */
  function Acquired(c: Config, r: Tid, d: Msg, pc: ReaderPc): Config
    requires r in c.readers && r in c.m.views
  {
    Moved(c, r, c.m.(views := c.m.views[r := Join(c.m.views[r], d.view)]), pc)
  }

  lemma SnapStep(c: Config, r: Tid, d: Msg)
    requires Inv(c) && r in c.readers && c.readers[r].pc.RSnap? && r in c.m.views
    requires d in c.m.msgs && d.loc == VER && Le(c.m.views[r], VER, d.time)
    ensures ReaderInv(Acquired(c, r, d, if d.val % 2 == 1 then RSnap else RData(d.val, [])), r)
  {
    assert ReaderInv(c, r);
    var c' := Acquired(c, r, d, if d.val % 2 == 1 then RSnap else RData(d.val, []));
    VersionOf(c, d);
    NoOlder(c, c.m.views[r], c.readers[r].last, d);
    if d.val % 2 == 0 {
      SnapCopies(c, c.m.views[r], d);
      CopyGrows(c, c', Join(c.m.views[r], d.view), d.val, []);
    }
    hide MsgInv, WriterInv, IsVersion, CopyInv;
  }

  lemma CopyStep(c: Config, r: Tid, d: Msg)
    requires Inv(c) && r in c.readers && c.readers[r].pc.RData? && r in c.m.views && |c.readers[r].pc.out| < CELLS
    requires d in c.m.msgs && d.loc == Cell(|c.readers[r].pc.out|) && Le(c.m.views[r], d.loc, d.time)
    ensures ReaderInv(Acquired(c, r, d, RData(c.readers[r].pc.snap, c.readers[r].pc.out + [d.val])), r)
  {
    assert ReaderInv(c, r);
    var RData(snap, out) := c.readers[r].pc;
    var c' := Acquired(c, r, d, RData(snap, out + [d.val]));
    var k := CellOf(c, d, |out|);
    CopyOne(c, c.m.views[r], snap, out, d, k);
    CopyGrows(c, c', Join(c.m.views[r], d.view), snap, out + [d.val]);
    hide MsgInv, WriterInv, IsCell, CopyInv;
  }

  lemma CheckStep(c: Config, r: Tid, d: Msg)
    requires Inv(c) && r in c.readers && c.readers[r].pc.RCheck? && r in c.m.views
    requires d in c.m.msgs && d.loc == VER && Le(c.m.views[r], VER, d.time)
    ensures var pc := c.readers[r].pc;
            ReaderInv(Acquired(c, r, d, if d.val == pc.snap then RDone(pc.snap, pc.out) else RSnap), r)
  {
    assert ReaderInv(c, r);
    var RCheck(snap, out) := c.readers[r].pc;
    var c' := Acquired(c, r, d, if d.val == snap then RDone(snap, out) else RSnap);
    VersionOf(c, d);
    if d.val == snap {
      CheckCertifies(c, c.m.views[r], snap, out, d);
      CopyGrows(c, c', Join(c.m.views[r], d.view), snap, out);
    }
    hide MsgInv, WriterInv, IsVersion, CopyInv;
  }

  lemma ReaderKeeps(c: Config, r: Tid, c': Config)
    requires Inv(c) && ReaderNext(c, r, c')
    ensures ReaderInv(c', r) && r in c'.readers
  {
    assert ReaderInv(c, r);
    hide CopyInv, MsgInv, WriterInv;
    match c.readers[r].pc
    case RSnap =>
      var d :| LoadAcq(c.m, VER, d, r, c'.m) &&
        c' == Moved(c, r, c'.m, if d.val % 2 == 1 then RSnap else RData(d.val, []));
      SnapStep(c, r, d);
    case RData(snap, out) =>
      if |out| < CELLS {
        var d :| LoadAcq(c.m, Cell(|out|), d, r, c'.m) && c' == Moved(c, r, c'.m, RData(snap, out + [d.val]));
        CopyStep(c, r, d);
      } else {
        CopyGrows(c, c', c.m.views[r], snap, out);
      }
    case RCheck(snap, out) =>
      var d :| LoadAcq(c.m, VER, d, r, c'.m) &&
        c' == Moved(c, r, c'.m, if d.val == snap then RDone(snap, out) else RSnap);
      CheckStep(c, r, d);
    case RIdle =>
    case RDone(snap, out) =>
  }

  /** A reader changes its own view and program point only. */
  lemma ReaderFrame(c: Config, r: Tid, c': Config)
    requires r in c.m.views && ReaderNext(c, r, c')
    ensures c'.m.msgs == c.m.msgs && c'.writes == c.writes && c'.verTimes == c.verTimes && c'.cellTimes == c.cellTimes
    ensures c'.w == c.w && c'.writer == c.writer && c'.readers.Keys == c.readers.Keys &&
      c'.m.views.Keys == c.m.views.Keys
    ensures forall p :: p in c.m.views && p != r ==> c'.m.views[p] == c.m.views[p]
    ensures forall p :: p in c.readers && p != r ==> c'.readers[p] == c.readers[p]
  {
    hide Join;
  }

  lemma ReaderLeavesWriter(c: Config, r: Tid, c': Config)
    requires |c.cellTimes| == CELLS && WriterInv(c) && r in c.m.views && r in c.readers
    requires c'.m.msgs == c.m.msgs && c'.writes == c.writes && c'.verTimes == c.verTimes && c'.cellTimes == c.cellTimes
    requires c'.w == c.w && c'.writer == c.writer && c'.readers.Keys == c.readers.Keys &&
      c'.m.views.Keys == c.m.views.Keys
    requires c'.m.views[c.writer] == c.m.views[c.writer]
    ensures WriterInv(c')
  {
    hide Below, Increasing;
  }

  lemma ReaderStepInv(c: Config, r: Tid, c': Config)
    requires Inv(c) && ReaderNext(c, r, c')
    ensures Inv(c')
  {
    assert ReaderInv(c, r);
    hide ReaderInv, Explained;
    ReaderKeeps(c, r, c');
    ReaderFrame(c, r, c');
    hide ReaderNext;
    ReaderLeavesWriter(c, r, c');
    forall d | d in c'.m.msgs ensures Explained(c', d) { MsgInvGrows(c, c', d); }
    forall p | p in c'.readers ensures ReaderInv(c', p) {
      if p != r { ReaderGrows(c, c', p); }
    }
    hide WriterInv;
  }

  // ---------------------------------------------------------------- writer steps

  /** The writer's own load finds the last version. */
  lemma WriterLoads(c: Config, d: Msg)
    requires Inv(c) && d in c.m.msgs && d.loc == VER && Le(c.m.views[c.writer], VER, d.time)
    ensures d.val == |c.verTimes| - 1
    ensures Join(c.m.views[c.writer], d.view) == c.m.views[c.writer]
  {
    VersionOf(c, d);
    TimesOrder(c.verTimes, |c.verTimes| - 1, d.val);
    assert Below(d.view, c.m.views[c.writer]);
  }

  lemma NewTime(ts: seq<Time>, t: Time)
    requires Increasing(ts) && |ts| > 0 && ts[|ts| - 1] < t
    ensures Increasing(ts + [t])
  {
  }

  /** What the writer's store leaves everyone else with. */
  lemma OthersKeep(c: Config, c': Config)
    requires Inv(c) && Extends(c, c') && c'.writer == c.writer && c'.readers == c.readers
    requires forall p :: p in c.m.views && p != c.writer ==> p in c'.m.views && c'.m.views[p] == c.m.views[p]
    ensures forall d :: d in c.m.msgs ==> Explained(c', d)
    ensures forall r :: r in c'.readers ==> ReaderInv(c', r)
  {
    forall d | d in c.m.msgs ensures Explained(c', d) { MsgInvGrows(c, c', d); }
    forall r | r in c'.readers ensures ReaderInv(c', r) {
      assert ReaderInv(c, r);
      hide ReaderInv;
      ReaderGrows(c, c', r);
    }
  }

  lemma NodeStart(c: Config, c': Config)
    requires Inv(c) && WriterNext(c, c') && (c.w.WIdle? || c.w.WLoad?)
    ensures Inv(c')
  {
    hide ReaderInv, Explained;
    if c.w.WLoad? {
      var d :| LoadAcq(c.m, VER, d, c.writer, c'.m) && c' == c.(m := c'.m, w := WOdd(c.w.input, d.val));
      WriterLoads(c, d);
      hide WriterNext, Join, Inv;
      assert c.m.views[c.writer := c.m.views[c.writer]] == c.m.views;
      Started(c, WOdd(c.w.input, |c.verTimes| - 1));
    } else {
      var input: seq<int> :| |input| == CELLS && c' == c.(w := WLoad(input));
      hide WriterNext, Inv;
      Started(c, WLoad(input));
    }
  }

  /** Before its first store the writer changes nothing but its program point. */
  lemma Started(c: Config, w: WriterPc)
    requires Inv(c) && (c.w.WIdle? || c.w.WLoad?)
    requires (w.WLoad? || (w.WOdd? && w.v == |c.verTimes| - 1)) && |w.input| == CELLS
    ensures Inv(c.(w := w))
  {
    hide ReaderInv, Explained;
    OthersKeep(c, c.(w := w));
  }

  /** The new message of a store, and the writer's view after it. */
  function Stored(c: Config, l: Loc, v: int, t: Time): Msg
    requires c.writer in c.m.views
  {
    Msg(l, v, t, c.m.views[c.writer][l := t])
  }

  lemma OddStep(c: Config, t: Time, c': Config)
    requires Inv(c) && c.w.WOdd? && StoreRel(c.m, VER, c.w.v + 1, t, c.writer, c'.m)
    requires c' == c.(m := c'.m, w := WData(c.w.input, c.w.v, 0), writes := c.writes + [c.w.input],
                      verTimes := c.verTimes + [t])
    ensures Inv(c')
  {
    var d := Stored(c, VER, c.w.v + 1, t);
    hide ReaderInv, Explained;
    OthersKeep(c, c');
    NewTime(c.verTimes, t);
    assert IsVersion(c', d, |c.verTimes|);
    assert Explained(c', d) by { IsExplained(c', d, |c.verTimes|, 0, 0); }
    VersionWriter(c, t, c');
    hide WriterInv;
  }

  /** The writer's part of a store of the version. */
  lemma VersionWriter(c: Config, t: Time, c': Config)
    requires |c.cellTimes| == CELLS && WriterInv(c) && (c.w.WOdd? || (c.w.WData? && c.w.i == CELLS))
    requires StoreRel(c.m, VER, if c.w.WOdd? then c.w.v + 1 else c.w.v + 2, t, c.writer, c'.m)
    requires c' == if c.w.WOdd?
      then c.(m := c'.m, w := WData(c.w.input, c.w.v, 0), writes := c.writes + [c.w.input],
              verTimes := c.verTimes + [t])
      else c.(m := c'.m, w := WIdle, verTimes := c.verTimes + [t])
    ensures WriterInv(c')
  {
    NewTime(c.verTimes, t);
    hide Increasing;
  }

  lemma IsExplained(c: Config, d: Msg, x: nat, i: nat, k: nat)
    requires |c.cellTimes| == CELLS
    requires (d.loc == VER && IsVersion(c, d, x)) || (i < CELLS && d.loc == Cell(i) && IsCell(c, d, i, k))
    ensures Explained(c, d)
  {
  }

  lemma DataStep(c: Config, t: Time, c': Config)
    requires Inv(c) && c.w.WData? && c.w.i < CELLS && c.w.i < |c.w.input|
    requires StoreRel(c.m, Cell(c.w.i), c.w.input[c.w.i], t, c.writer, c'.m)
    requires c' == c.(m := c'.m, w := WData(c.w.input, c.w.v, c.w.i + 1),
                      cellTimes := c.cellTimes[c.w.i := c.cellTimes[c.w.i] + [t]])
    ensures Inv(c')
  {
    var i, K := c.w.i, |c.writes| - 1;
    var d := Stored(c, Cell(i), c.w.input[i], t);
    hide ReaderInv, Explained;
    OthersKeep(c, c');
    NewTime(c.cellTimes[i], t);
    assert IsCell(c', d, i, K);
    assert Explained(c', d) by { IsExplained(c', d, 0, i, K); }
    DataWriter(c, t, c');
    hide WriterInv;
  }

  lemma DataWriter(c: Config, t: Time, c': Config)
    requires |c.cellTimes| == CELLS && WriterInv(c) && c.w.WData? && c.w.i < CELLS && c.w.i < |c.w.input|
    requires StoreRel(c.m, Cell(c.w.i), c.w.input[c.w.i], t, c.writer, c'.m)
    requires c' == c.(m := c'.m, w := WData(c.w.input, c.w.v, c.w.i + 1),
                      cellTimes := c.cellTimes[c.w.i := c.cellTimes[c.w.i] + [t]])
    ensures WriterInv(c')
  {
    NewTime(c.cellTimes[c.w.i], t);
    hide Increasing;
  }

  lemma EvenStep(c: Config, t: Time, c': Config)
    requires Inv(c) && c.w.WData? && c.w.i == CELLS && StoreRel(c.m, VER, c.w.v + 2, t, c.writer, c'.m)
    requires c' == c.(m := c'.m, w := WIdle, verTimes := c.verTimes + [t])
    ensures Inv(c')
  {
    var K := |c.writes| - 1;
    var d := Stored(c, VER, c.w.v + 2, t);
    hide ReaderInv, Explained;
    OthersKeep(c, c');
    NewTime(c.verTimes, t);
    forall i: nat | i < CELLS ensures Published(c', d.view, i, K) { }
    assert IsVersion(c', d, |c.verTimes|);
    assert Explained(c', d) by { IsExplained(c', d, |c.verTimes|, 0, 0); }
    VersionWriter(c, t, c');
    hide WriterInv;
  }

  lemma WriterStepInv(c: Config, c': Config)
    requires Inv(c) && WriterNext(c, c')
    ensures Inv(c')
  {
    match c.w
    case WIdle => NodeStart(c, c');
    case WLoad(_) => NodeStart(c, c');
    case WOdd(input, v) =>
      var t :| StoreRel(c.m, VER, v + 1, t, c.writer, c'.m) &&
        c' == c.(m := c'.m, w := WData(input, v, 0), writes := c.writes + [input], verTimes := c.verTimes + [t]);
      OddStep(c, t, c');
    case WData(input, v, i) =>
      if i < CELLS {
        var t :| StoreRel(c.m, Cell(i), input[i], t, c.writer, c'.m) &&
          c' == c.(m := c'.m, w := WData(input, v, i + 1), cellTimes := c.cellTimes[i := c.cellTimes[i] + [t]]);
        DataStep(c, t, c');
      } else {
        var t :| StoreRel(c.m, VER, v + 2, t, c.writer, c'.m) &&
          c' == c.(m := c'.m, w := WIdle, verTimes := c.verTimes + [t]);
        EvenStep(c, t, c');
      }
  }

  // ---------------------------------------------------------------- over whole runs

  lemma InitInv(c: Config)
    requires Init(c)
    ensures Inv(c)
  {
    forall d | d in c.m.msgs ensures Explained(c, d) {
      if d.loc == VER && d.time == c.verTimes[0] {
        assert IsVersion(c, d, 0);
      } else {
        var i: nat :| i < CELLS && d.loc == Cell(i) && d.time == c.cellTimes[i][0];
        assert IsCell(c, d, i, 0);
      }
    }
  }

  lemma {:induction false} RunInv(cs: seq<Config>, k: nat)
    requires IsRun(cs) && k < |cs|
    ensures Inv(cs[k])
  {
    hide Inv, WriterNext, ReaderNext, Init;
    if k == 0 {
      InitInv(cs[0]);
    } else {
      RunInv(cs, k - 1);
      assert Next(cs[k - 1], cs[k]);
      if WriterNext(cs[k - 1], cs[k]) {
        WriterStepInv(cs[k - 1], cs[k]);
      } else {
        var r :| ReaderNext(cs[k - 1], r, cs[k]);
        ReaderStepInv(cs[k - 1], r, cs[k]);
      }
    }
  }

  /** In every run, a read that returns copied exactly the eight values of one write, the one whose version
      equals its snapshot, and that version is no older than the one the same reader returned before. */
  lemma ReadsOneWrite(cs: seq<Config>, k: nat, r: Tid)
    requires IsRun(cs) && k < |cs| && r in cs[k].readers && cs[k].readers[r].pc.RDone?
    ensures var c, q := cs[k], cs[k].readers[r];
            && 0 <= q.pc.snap < |c.verTimes| && q.pc.snap % 2 == 0 && q.pc.snap / 2 < |c.writes|
            && q.pc.out == c.writes[q.pc.snap / 2] && |q.pc.out| == CELLS
            && q.last <= q.pc.snap
  {
    RunInv(cs, k);
    assert ReaderInv(cs[k], r);
  }

  // ---------------------------------------------------------------- make_node

  /** The stores of make_node: nine non-atomic writes of 0, the version first and then the cells in order. */
  ghost predicate MakesNode(ms: seq<State>, p: Tid) {
    |ms| == CELLS + 2 && ms[0].msgs == {} && p in ms[0].views &&
    (forall l: nat :: l <= CELLS ==> l !in ms[0].views[p]) &&
    forall j: nat :: j < CELLS + 1 ==> Step(ms[j], WriteNA(j, 0), p, ms[j + 1])
  }

  /** After j stores: one message at each of the first j locations, at the time their writer's view has there. */
  ghost predicate MadeSoFar(m: State, p: Tid, j: nat) {
    p in m.views && (forall l: nat :: l <= CELLS ==> (l in m.views[p] <==> l < j)) &&
    forall d :: d in m.msgs ==>
      && d.val == 0 && d.loc < j && d.loc in m.views[p] && d.time == m.views[p][d.loc]
      && VER in d.view && VER in m.views[p] && d.view[VER] == m.views[p][VER]
      && Below(d.view, m.views[p])
  }

  lemma {:induction false} MakeSteps(ms: seq<State>, p: Tid, j: nat)
    requires MakesNode(ms, p) && j <= CELLS + 1
    ensures MadeSoFar(ms[j], p, j)
  {
    if j > 0 {
      MakeSteps(ms, p, j - 1);
      var m, m' := ms[j - 1], ms[j];
      assert Step(m, WriteNA(j - 1, 0), p, m');
      var t :| WriteStep(m, j - 1, 0, t, p, m') && forall e :: e in m.msgs && e.loc == j - 1 ==> e.time < t;
      MakeOne(m, p, j - 1, t, m');
    }
  }

  lemma MakeOne(m: State, p: Tid, l: nat, t: Time, m': State)
    requires l <= CELLS && MadeSoFar(m, p, l) && WriteStep(m, l, 0, t, p, m')
    ensures MadeSoFar(m', p, l + 1)
  {
  }

  /** make_node leaves the node that Init asks for, to any writer that starts with the maker's view. */
  lemma MakeNode(ms: seq<State>, p: Tid) returns (t0: Time, cellTimes: seq<seq<Time>>)
    requires MakesNode(ms, p)
    ensures |cellTimes| == CELLS && (forall i :: 0 <= i < CELLS ==> |cellTimes[i]| == 1)
    ensures NodeMade(ms[CELLS + 1].msgs, t0, cellTimes) && p in ms[CELLS + 1].views
    ensures var view := ms[CELLS + 1].views[p];
            && VER in view && view[VER] == t0
            && (forall i :: 0 <= i < CELLS ==> Cell(i) in view && view[Cell(i)] == cellTimes[i][0])
            && (forall d :: d in ms[CELLS + 1].msgs ==> Below(d.view, view))
  {
    MakeSteps(ms, p, CELLS + 1);
    var view := ms[CELLS + 1].views[p];
    forall i | 0 <= i < CELLS ensures Cell(i) in view { assert Cell(i) <= CELLS; }
    assert VER <= CELLS;
    t0 := view[VER];
    cellTimes := seq(CELLS, i requires 0 <= i < CELLS => [view[Cell(i)]]);
    forall d | d in ms[CELLS + 1].msgs && d.loc != VER
      ensures exists i: nat :: i < CELLS && d.loc == Cell(i) && d.time == cellTimes[i][0]
    {
      assert d.loc == Cell(d.loc - 1);
    }
  }
}
