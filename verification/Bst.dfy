/** The trees of bst.c. */
module Bst {
  // What insert, lookup and delete by rotation mean.

  /** A tree with the addresses of its nodes. */
  datatype Tree = E | T(addr: int, key: int, value: int, left: Tree, right: Tree)

  // ---------------------------------------------------------------- the operations

  /** spot is the address of the node made if x is not there. */
  function Inserted(t: Tree, x: int, v: int, spot: int): Tree {
    match t
    case E => T(spot, x, v, E, E)
    case T(a, k, w, l, r) =>
      if x < k then T(a, k, w, Inserted(l, x, v, spot), r)
      else if k < x then T(a, k, w, l, Inserted(r, x, v, spot))
      else T(a, k, v, l, r)
  }

  /** 0 if x is not there. */
  function Found(t: Tree, x: int): int {
    match t
    case E => 0
    case T(_, k, w, l, r) => if x < k then Found(l, x) else if k < x then Found(r, x) else w
  }

  function Size(t: Tree): nat {
    match t
    case E => 0
    case T(_, _, _, l, r) => 1 + Size(l) + Size(r)
  }

  /** turn_left: the right child comes up. */
  function Turned(t: Tree): Tree
    requires t.T? && t.right.T?
  {
    var r := t.right;
    T(r.addr, r.key, r.value, T(t.addr, t.key, t.value, t.left, r.left), r.right)
  }

  /** The root sinks to the left until it has no right child; its left child then takes its place. */
  function Pushed(t: Tree): Tree
    requires t.T?
    decreases Size(t.right)
  {
    if t.right.E? then t.left
    else
      var u := Turned(t);
      T(u.addr, u.key, u.value, Pushed(u.left), u.right)
  }

  function Deleted(t: Tree, x: int): Tree {
    match t
    case E => E
    case T(a, k, w, l, r) =>
      if x < k then T(a, k, w, Deleted(l, x), r)
      else if k < x then T(a, k, w, l, Deleted(r, x))
      else Pushed(t)
  }

  // ---------------------------------------------------------------- keys in order, and the map they carry

  function Inorder(t: Tree): seq<(int, int)> {
    match t
    case E => []
    case T(_, k, w, l, r) => Inorder(l) + [(k, w)] + Inorder(r)
  }

  ghost predicate Sorted(s: seq<(int, int)>) {
    forall i, j :: 0 <= i < j < |s| ==> s[i].0 < s[j].0
  }

  ghost predicate SearchTree(t: Tree) {
    Sorted(Inorder(t))
  }

  /** The map from keys to values. */
  ghost function Content(t: Tree): map<int, int> {
    MapOf(Inorder(t))
  }

  ghost function MapOf(s: seq<(int, int)>): (m: map<int, int>)
    ensures forall x :: x in m <==> exists i :: 0 <= i < |s| && s[i].0 == x
  {
    if s == [] then map[] else MapOf(s[..|s| - 1])[s[|s| - 1].0 := s[|s| - 1].1]
  }

  lemma {:induction false} MapOfAt(s: seq<(int, int)>, i: nat)
    requires Sorted(s) && i < |s|
    ensures s[i].0 in MapOf(s) && MapOf(s)[s[i].0] == s[i].1
    decreases |s|
  {
    if i < |s| - 1 {
      MapOfAt(s[..|s| - 1], i);
      assert s[..|s| - 1][i] == s[i];
    }
  }

  /** Two sorted sequences with the same pairs carry the same map. */
  lemma MapIs(s: seq<(int, int)>, m: map<int, int>)
    requires Sorted(s) && (forall i :: 0 <= i < |s| ==> s[i].0 in m && m[s[i].0] == s[i].1)
    requires forall x :: x in m ==> exists i :: 0 <= i < |s| && s[i].0 == x
    ensures MapOf(s) == m
  {
    hide Sorted;
    forall x | x in m ensures x in MapOf(s) && MapOf(s)[x] == m[x] {
      var i :| 0 <= i < |s| && s[i].0 == x;
      MapOfAt(s, i);
    }
    forall x | x in MapOf(s) ensures x in m {
      var i :| 0 <= i < |s| && s[i].0 == x;
    }
  }

  lemma SortedParts(a: seq<(int, int)>, p: (int, int), b: seq<(int, int)>)
    ensures Sorted(a + [p] + b) <==>
      && Sorted(a) && Sorted(b)
      && (forall i :: 0 <= i < |a| ==> a[i].0 < p.0)
      && (forall i :: 0 <= i < |b| ==> p.0 < b[i].0)
  {
    var s := a + [p] + b;
    assert s[|a|] == p;
    assert forall i :: 0 <= i < |a| ==> s[i] == a[i];
    assert forall i :: 0 <= i < |b| ==> s[|a| + 1 + i] == b[i];
    if Sorted(s) {
      forall i, j | 0 <= i < j < |b| ensures b[i].0 < b[j].0 { assert s[|a| + 1 + i].0 < s[|a| + 1 + j].0; }
      forall i | 0 <= i < |b| ensures p.0 < b[i].0 { assert s[|a|].0 < s[|a| + 1 + i].0; }
    }
  }

  ghost predicate Below(s: seq<(int, int)>, x: int) {
    forall i :: 0 <= i < |s| ==> s[i].0 < x
  }

  ghost predicate Above(s: seq<(int, int)>, x: int) {
    forall i :: 0 <= i < |s| ==> x < s[i].0
  }

  /** Where x is or belongs in a sorted sequence. */
  ghost predicate SplitAt(s: seq<(int, int)>, x: int, a: seq<(int, int)>, hit: seq<(int, int)>, b: seq<(int, int)>) {
    s == a + hit + b && Below(a, x) && Above(b, x) && |hit| <= 1 && (forall i :: 0 <= i < |hit| ==> hit[i].0 == x)
  }

  lemma GlueRight(s: seq<(int, int)>, p: (int, int), u: seq<(int, int)>, x: int,
                  a: seq<(int, int)>, hit: seq<(int, int)>, c: seq<(int, int)>)
    requires Sorted(s + [p] + u) && x < p.0 && SplitAt(s, x, a, hit, c)
    ensures SplitAt(s + [p] + u, x, a, hit, c + [p] + u)
  {
    SortedParts(s, p, u);
    hide Sorted;
    assert a + hit + (c + [p] + u) == s + [p] + u;
    var b := c + [p] + u;
    forall i | 0 <= i < |b| ensures x < b[i].0 { Elements(c, [p], u, i); }
  }

  lemma GlueLeft(s: seq<(int, int)>, p: (int, int), u: seq<(int, int)>, x: int,
                 c: seq<(int, int)>, hit: seq<(int, int)>, b: seq<(int, int)>)
    requires Sorted(s + [p] + u) && p.0 < x && SplitAt(u, x, c, hit, b)
    ensures SplitAt(s + [p] + u, x, s + [p] + c, hit, b)
  {
    SortedParts(s, p, u);
    hide Sorted;
    assert (s + [p] + c) + hit + b == s + [p] + u;
    var a := s + [p] + c;
    forall i | 0 <= i < |a| ensures a[i].0 < x { Elements(s, [p], c, i); }
  }

  lemma SplitHere(s: seq<(int, int)>, p: (int, int), u: seq<(int, int)>)
    requires Sorted(s + [p] + u)
    ensures SplitAt(s + [p] + u, p.0, s, [p], u)
  {
    SortedParts(s, p, u);
  }

  lemma MoveRight(a: seq<(int, int)>, c: seq<(int, int)>, p: seq<(int, int)>, u: seq<(int, int)>)
    ensures (a + c) + p + u == a + (c + p + u)
  {
  }

  lemma MoveLeft(s: seq<(int, int)>, c: seq<(int, int)>, p: seq<(int, int)>, b: seq<(int, int)>)
    ensures s + (c + p + b) == (s + c) + p + b && s + (c + b) == (s + c) + b
  {
  }

  /** a and b are the keys of t on either side of x, and hit is x itself if there; so for what operations return. */
  ghost predicate Parts(t: Tree, x: int, v: int, spot: int, a: seq<(int, int)>, hit: seq<(int, int)>,
                        b: seq<(int, int)>) {
    && SplitAt(Inorder(t), x, a, hit, b)
    && Inorder(Inserted(t, x, v, spot)) == a + [(x, v)] + b
    && Inorder(Deleted(t, x)) == a + b
    && Found(t, x) == (if hit == [] then 0 else hit[0].1)
  }

  lemma PartsLeft(t: Tree, x: int, v: int, spot: int, a: seq<(int, int)>, hit: seq<(int, int)>, c: seq<(int, int)>)
    requires t.T? && SearchTree(t) && x < t.key && Parts(t.left, x, v, spot, a, hit, c)
    ensures Parts(t, x, v, spot, a, hit, c + [(t.key, t.value)] + Inorder(t.right))
  {
    var p, u := (t.key, t.value), Inorder(t.right);
    GlueRight(Inorder(t.left), p, u, x, a, hit, c);
    hide Sorted, SplitAt;
    MoveRight(a + [(x, v)], c, [p], u);
    MoveRight(a, c, [p], u);
  }

  lemma PartsRight(t: Tree, x: int, v: int, spot: int, c: seq<(int, int)>, hit: seq<(int, int)>, b: seq<(int, int)>)
    requires t.T? && SearchTree(t) && t.key < x && Parts(t.right, x, v, spot, c, hit, b)
    ensures Parts(t, x, v, spot, Inorder(t.left) + [(t.key, t.value)] + c, hit, b)
  {
    var p, s := (t.key, t.value), Inorder(t.left);
    GlueLeft(s, p, Inorder(t.right), x, c, hit, b);
    hide Sorted, SplitAt;
    MoveLeft(s + [p], c, [(x, v)], b);
  }

  lemma PartsHere(t: Tree, v: int, spot: int)
    requires t.T? && SearchTree(t)
    ensures Parts(t, t.key, v, spot, Inorder(t.left), [(t.key, t.value)], Inorder(t.right))
  {
    SplitHere(Inorder(t.left), (t.key, t.value), Inorder(t.right));
    hide Sorted, SplitAt;
    PushedInorder(t);
  }

  /** The keys of a search tree can be parted at any x. */
  lemma {:induction false} SplitTree(t: Tree, x: int, v: int, spot: int)
      returns (a: seq<(int, int)>, hit: seq<(int, int)>, b: seq<(int, int)>)
    requires SearchTree(t)
    ensures Parts(t, x, v, spot, a, hit, b)
    decreases t
  {
    if t.E? {
      a, hit, b := [], [], [];
    } else {
      Subtrees(t);
      hide Parts, SearchTree;
      if x < t.key {
        a, hit, b := SplitTree(t.left, x, v, spot);
        PartsLeft(t, x, v, spot, a, hit, b);
        b := b + [(t.key, t.value)] + Inorder(t.right);
      } else if t.key < x {
        a, hit, b := SplitTree(t.right, x, v, spot);
        PartsRight(t, x, v, spot, a, hit, b);
        a := Inorder(t.left) + [(t.key, t.value)] + a;
      } else {
        a, hit, b := Inorder(t.left), [(t.key, t.value)], Inorder(t.right);
        PartsHere(t, v, spot);
      }
    }
  }

  lemma Subtrees(t: Tree)
    requires t.T? && SearchTree(t)
    ensures SearchTree(t.left) && SearchTree(t.right)
  {
    SortedParts(Inorder(t.left), (t.key, t.value), Inorder(t.right));
  }

  /** Sinking the root removes it and keeps all else in order. */
  lemma {:induction false} PushedInorder(t: Tree)
    requires t.T?
    ensures Inorder(Pushed(t)) == Inorder(t.left) + Inorder(t.right)
    decreases Size(t.right)
  {
    if t.right.T? {
      var u := Turned(t);
      PushedInorder(u.left);
      var l, m, r, p := Inorder(t.left), Inorder(t.right.left), Inorder(t.right.right), (t.right.key, t.right.value);
      assert (l + m) + [p] + r == l + (m + [p] + r);
    } else {
      assert Inorder(t.left) + [] == Inorder(t.left);
    }
  }

  lemma SortedTriple(a: seq<(int, int)>, hit: seq<(int, int)>, b: seq<(int, int)>, x: int, v: int)
    requires Sorted(a + hit + b) && Below(a, x) && Above(b, x)
    ensures Sorted(a + [(x, v)] + b) && Sorted(a + b) && Sorted(a) && Sorted(b)
  {
    var s := a + hit + b;
    assert forall i :: 0 <= i < |a| ==> s[i] == a[i];
    assert forall i :: 0 <= i < |b| ==> s[|a| + |hit| + i] == b[i];
    assert Sorted(a);
    forall i, j | 0 <= i < j < |b| ensures b[i].0 < b[j].0 { assert s[|a| + |hit| + i].0 < s[|a| + |hit| + j].0; }
    SortedParts(a, (x, v), b);
  }

  /** In a sorted sequence around x, what the map says. */
  lemma MapOfParts(a: seq<(int, int)>, hit: seq<(int, int)>, b: seq<(int, int)>, x: int, v: int)
    requires Sorted(a + hit + b) && SplitAt(a + hit + b, x, a, hit, b)
    ensures MapOf(a + [(x, v)] + b) == MapOf(a + hit + b)[x := v]
    ensures MapOf(a + b) == MapOf(a + hit + b) - {x}
    ensures (x in MapOf(a + hit + b) <==> hit != []) && (hit != [] ==> MapOf(a + hit + b)[x] == hit[0].1)
  {
    SortedTriple(a, hit, b, x, v);
    MapOfInserted(a, hit, b, x, v);
    MapOfDeleted(a, hit, b, x);
    var s := a + hit + b;
    if hit != [] {
      assert s[|a|] == hit[0];
      MapOfAt(s, |a|);
    }
  }

  lemma Elements(a: seq<(int, int)>, h: seq<(int, int)>, b: seq<(int, int)>, i: nat)
    requires i < |a + h + b|
    ensures (a + h + b)[i] == if i < |a| then a[i] else if i < |a| + |h| then h[i - |a|] else b[i - |a| - |h|]
  {
  }

  lemma MapOfInserted(a: seq<(int, int)>, hit: seq<(int, int)>, b: seq<(int, int)>, x: int, v: int)
    requires Sorted(a + hit + b) && SplitAt(a + hit + b, x, a, hit, b) && Sorted(a + [(x, v)] + b) && Sorted(a + b)
    ensures MapOf(a + [(x, v)] + b) == MapOf(a + hit + b)[x := v]
  {
    hide Sorted, MapOf;
    var s, n := a + hit + b, a + [(x, v)] + b;
    assert n[|a|] == (x, v);
    MapOfAt(n, |a|);
    assert SplitAt(n, x, a, [(x, v)], b);
    hide SplitAt;
    MapOfDeleted(a, hit, b, x);
    MapOfDeleted(a, [(x, v)], b, x);
    SameButOne(MapOf(n), MapOf(s)[x := v], x);
  }

  lemma SameButOne(m: map<int, int>, n: map<int, int>, x: int)
    requires m - {x} == n - {x} && x in m && x in n && m[x] == n[x]
    ensures m == n
  {
    forall y | y in m ensures y in n && m[y] == n[y] {
      if y != x { assert y in m - {x} && (m - {x})[y] == m[y]; }
    }
    forall y | y in n ensures y in m {
      if y != x { assert y in n - {x}; }
    }
  }

  lemma Skip(a: seq<(int, int)>, hit: seq<(int, int)>, b: seq<(int, int)>, i: nat)
    requires i < |a + b|
    ensures var j := if i < |a| then i else i + |hit|; j < |a + hit + b| && (a + hit + b)[j] == (a + b)[i]
  {
  }

  lemma MapOfDeleted(a: seq<(int, int)>, hit: seq<(int, int)>, b: seq<(int, int)>, x: int)
    requires Sorted(a + hit + b) && SplitAt(a + hit + b, x, a, hit, b) && Sorted(a + b)
    ensures MapOf(a + b) == MapOf(a + hit + b) - {x}
  {
    hide Sorted;
    var s, n := a + hit + b, a + b;
    var m := MapOf(s) - {x};
    forall i | 0 <= i < |n| ensures n[i].0 in m && m[n[i].0] == n[i].1 {
      Skip(a, hit, b, i);
      MapOfAt(s, if i < |a| then i else i + |hit|);
      assert n[i].0 != x;
    }
    forall y | y in m ensures exists i :: 0 <= i < |n| && n[i].0 == y {
      var j :| 0 <= j < |s| && s[j].0 == y;
      Elements(a, hit, b, j);
      var i := if j < |a| then j else j - |hit|;
      assert n[i] == s[j];
    }
    MapIs(n, m);
  }

  // ---------------------------------------------------------------- the theorems about the operations

  /** insert is map update, and keeps the search order. */
  lemma InsertIsUpdate(t: Tree, x: int, v: int, spot: int)
    requires SearchTree(t)
    ensures SearchTree(Inserted(t, x, v, spot)) && Content(Inserted(t, x, v, spot)) == Content(t)[x := v]
  {
    var a, hit, b := SplitTree(t, x, v, spot);
    SortedTriple(a, hit, b, x, v);
    MapOfParts(a, hit, b, x, v);
  }

  /** lookup is map application, with null for keys that are not there. */
  lemma LookupIsGet(t: Tree, x: int)
    requires SearchTree(t)
    ensures Found(t, x) == if x in Content(t) then Content(t)[x] else 0
  {
    var a, hit, b := SplitTree(t, x, 0, 0);
    MapOfParts(a, hit, b, x, 0);
  }

  /** delete by rotations removes exactly one key, and keeps the search order. */
  lemma DeleteIsRemoval(t: Tree, x: int)
    requires SearchTree(t)
    ensures SearchTree(Deleted(t, x)) && Content(Deleted(t, x)) == Content(t) - {x}
  {
    var a, hit, b := SplitTree(t, x, 0, 0);
    SortedTriple(a, hit, b, x, 0);
    MapOfParts(a, hit, b, x, 0);
  }
}
