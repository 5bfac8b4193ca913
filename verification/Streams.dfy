/** Processing a sequence item by item with a carried state. */
module Streams {
  /** The state after all items, and what came out. */
  function Run<S, T>(f: (S, T) -> (S, T), s: S, xs: seq<T>): (r: (S, seq<T>))
    ensures |r.1| == |xs|
  {
    if xs == [] then (s, [])
    else
      var (s1, ys) := Run(f, s, xs[..|xs| - 1]);
      var (s2, y) := f(s1, xs[|xs| - 1]);
      (s2, ys + [y])
  }

  lemma RunNext<S, T>(f: (S, T) -> (S, T), s: S, xs: seq<T>, x: T)
    ensures var (s1, ys) := Run(f, s, xs);
      Run(f, s, xs + [x]) == (f(s1, x).0, ys + [f(s1, x).1])
  {
    assert (xs + [x])[..|xs|] == xs;
  }

  /** Two calls in a row, with the state carried over, are one call. */
  lemma {:induction false} RunSplit<S, T>(f: (S, T) -> (S, T), s: S, a: seq<T>, b: seq<T>)
    ensures var (s1, ya) := Run(f, s, a);
      var (s2, yb) := Run(f, s1, b);
      Run(f, s, a + b) == (s2, ya + yb)
    decreases |b|
  {
    if b == [] {
      assert a + b == a;
      var (s1, ya) := Run(f, s, a);
      assert ya + [] == ya;
    } else {
      var init, x := b[..|b| - 1], b[|b| - 1];
      RunSplit(f, s, a, init);
      assert a + b == a + init + [x];
      RunNext(f, s, a + init, x);
      var (s1, ya) := Run(f, s, a);
      var (s2, yi) := Run(f, s1, init);
      assert ya + yi + [f(s2, x).1] == ya + (yi + [f(s2, x).1]);
    }
  }

  ghost predicate All<T(!new)>(item: T -> bool, xs: seq<T>) {
    forall i :: 0 <= i < |xs| ==> item(xs[i])
  }

  /** g undoes f on states of which ok holds, and f keeps ok. */
  ghost predicate Undoes<S(!new), T(!new)>(f: (S, T) -> (S, T), g: (S, T) -> (S, T), ok: S -> bool, item: T -> bool) {
    forall s, x :: ok(s) && item(x) ==>
      && ok(f(s, x).0) && item(f(s, x).1)
      && g(s, f(s, x).1) == (f(s, x).0, x)
  }

  /** Then the run of g on the output of a run of f gives the input back and ends in the same state. */
  lemma {:induction false} RunBack<S(!new), T(!new)>(f: (S, T) -> (S, T), g: (S, T) -> (S, T), ok: S -> bool,
                                                     item: T -> bool, s: S, xs: seq<T>)
    requires Undoes(f, g, ok, item) && ok(s) && All(item, xs)
    ensures var (s1, ys) := Run(f, s, xs);
      ok(s1) && All(item, ys) && Run(g, s, ys) == (s1, xs)
    decreases |xs|
  {
    hide Undoes;
    if xs != [] {
      var init, x := xs[..|xs| - 1], xs[|xs| - 1];
      RunBack(f, g, ok, item, s, init);
      var (s1, ys) := Run(f, s, init);
      StepBack(f, g, ok, item, s1, x);
      RunNext(g, s, ys, f(s1, x).1);
      assert init + [x] == xs;
      RunNext(f, s, init, x);
    }
  }

  lemma StepBack<S(!new), T(!new)>(f: (S, T) -> (S, T), g: (S, T) -> (S, T), ok: S -> bool, item: T -> bool, s: S, x: T)
    requires Undoes(f, g, ok, item) && ok(s) && item(x)
    ensures ok(f(s, x).0) && item(f(s, x).1) && g(s, f(s, x).1) == (f(s, x).0, x)
  {
  }
}
