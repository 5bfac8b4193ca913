/** The release/acquire machine. */
module RaMachine {
  // The model of atomics/RA_machine.v.
  // A memory of timestamped messages that carry views, a view for every thread, and a view of the last
  // non-atomic writes.

  type Loc = nat
  type Time = nat
  type Tid = nat
  type View = map<Loc, Time>

  datatype Msg = Msg(loc: Loc, val: int, time: Time, view: View)

  datatype State = State(msgs: set<Msg>, views: map<Tid, View>, na: View)

  datatype Op =
    | ReadNA(loc: Loc, val: int)
    | ReadA(loc: Loc, val: int)
    | WriteNA(loc: Loc, val: int)
    | WriteR(loc: Loc, val: int)

  function Max(a: Time, b: Time): Time { if a < b then b else a }

  /** Everything v has seen, w has seen as well. */
  predicate Below(v: View, w: View) { forall l :: l in v ==> l in w && v[l] <= w[l] }

  /** The pointwise later of two views: above both, and below every view that is above both. */
  function Join(v1: View, v2: View): (v: View)
    ensures v.Keys == v1.Keys + v2.Keys
    ensures Below(v1, v) && Below(v2, v)
    ensures forall l :: l in v ==> (l in v1 && v[l] == v1[l]) || (l in v2 && v[l] == v2[l])
  {
    map l | l in v1.Keys + v2.Keys ::
      if l in v1 && l in v2 then Max(v1[l], v2[l]) else if l in v1 then v1[l] else v2[l]
  }

  lemma JoinIsLeast(v1: View, v2: View, w: View)
    requires Below(v1, w) && Below(v2, w)
    ensures Below(Join(v1, v2), w)
  {
  }

  /** A view allows time t at l when it has seen nothing later there. */
  predicate Le(v: View, l: Loc, t: Time) { l in v ==> v[l] <= t }

  predicate Lt(v: View, l: Loc, t: Time) { l in v ==> v[l] < t }

  predicate Fresh(msgs: set<Msg>, l: Loc, t: Time) {
    forall d :: d in msgs ==> !(d.loc == l && d.time == t)
  }

  /** The writer has seen the last non-atomic write to l. */
  predicate SawNA(na: View, v: View, l: Loc) { l in na ==> l in v && na[l] <= v[l] }

  ghost predicate Step(s: State, op: Op, p: Tid, s': State) {
    p in s.views &&
    match op
    case ReadA(l, v) =>
      exists d :: d in s.msgs && d.loc == l && d.val == v && AcqStep(s, d, p, s')
    case ReadNA(l, v) =>
      exists d :: d in s.msgs && d.loc == l && d.val == v && AcqStep(s, d, p, s') &&
        forall e :: e in s.msgs && e.loc == l ==> l in s.views[p] && e.time <= s.views[p][l]
    case WriteR(l, v) =>
      exists t :: Lt(s.views[p], l, t) && WriteStep(s, l, v, t, p, s')
    case WriteNA(l, v) =>
      exists t :: WriteStep(s, l, v, t, p, s') && forall e :: e in s.msgs && e.loc == l ==> e.time < t
  }

  /** Thread p reads message d and joins its view. */
  predicate AcqStep(s: State, d: Msg, p: Tid, s': State)
    requires p in s.views
  {
    Le(s.views[p], d.loc, d.time) && s' == s.(views := s.views[p := Join(s.views[p], d.view)])
  }

  /** Thread p adds a message at a free time and moves its own view there. */
  predicate WriteStep(s: State, l: Loc, v: int, t: Time, p: Tid, s': State)
    requires p in s.views
  {
    var view: View := s.views[p][l := t];
    Fresh(s.msgs, l, t) && SawNA(s.na, s.views[p], l) &&
    s' == s.(msgs := s.msgs + {Msg(l, v, t, view)}, views := s.views[p := view])
  }
}
