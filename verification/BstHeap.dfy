/** The code of bst.c. */
module BstHeap {
  // Nodes in memory, and loops that walk by the place where a pointer is stored.

  import opened Bst

  /** struct tree; 0 is the null pointer. */
  datatype Node = Node(key: int, value: int, left: int, right: int)

  /** A struct tree **: a box, or the left or right field of a node. */
  datatype Place = Box(b: int) | LeftOf(p: int) | RightOf(p: int)

  // ---------------------------------------------------------------- trees in memory

  function Top(t: Tree): int {
    if t.E? then 0 else t.addr
  }

  /** The nodes of t are in memory as t says. */
  ghost predicate Held(nodes: map<int, Node>, t: Tree) {
    match t
    case E => true
    case T(a, k, v, l, r) =>
      a > 0 && a in nodes && nodes[a] == Node(k, v, Top(l), Top(r)) && Held(nodes, l) && Held(nodes, r)
  }

  function Addrs(t: Tree): set<int> {
    match t
    case E => {}
    case T(a, _, _, l, r) => {a} + Addrs(l) + Addrs(r)
  }

  /** No node occurs twice. */
  ghost predicate Distinct(t: Tree) {
    match t
    case E => true
    case T(a, _, _, l, r) =>
      a !in Addrs(l) && a !in Addrs(r) && Addrs(l) !! Addrs(r) && Distinct(l) && Distinct(r)
  }

  /** Only the nodes of the tree matter. */
  lemma {:induction false} HeldFrame(nodes: map<int, Node>, now: map<int, Node>, t: Tree)
    requires Held(nodes, t) && forall a :: a in Addrs(t) && a in nodes ==> a in now && now[a] == nodes[a]
    ensures Held(now, t)
    decreases t
  {
    if t.T? {
      HeldFrame(nodes, now, t.left);
      HeldFrame(nodes, now, t.right);
    }
  }

  lemma {:induction false} HeldAddrs(nodes: map<int, Node>, t: Tree)
    requires Held(nodes, t)
    ensures forall a :: a in Addrs(t) ==> a in nodes && a > 0
    decreases t
  {
    if t.T? {
      HeldAddrs(nodes, t.left);
      HeldAddrs(nodes, t.right);
    }
  }

  // ---------------------------------------------------------------- positions in a tree

  /** The subtree reached by going right where the path says true. */
  function Sub(t: Tree, path: seq<bool>): Tree {
    if path == [] || t.E? then t else Sub(if path[0] then t.right else t.left, path[1..])
  }

  ghost predicate Leads(t: Tree, path: seq<bool>) {
    path == [] || (t.T? && Leads(if path[0] then t.right else t.left, path[1..]))
  }

  /** t with the subtree at the path replaced. */
  function Put(t: Tree, path: seq<bool>, s: Tree): Tree {
    if path == [] then s
    else if t.E? then t
    else if path[0] then t.(right := Put(t.right, path[1..], s))
    else t.(left := Put(t.left, path[1..], s))
  }

  /** Where the pointer to the subtree is stored. */
  function Slot(b: int, t: Tree, path: seq<bool>): Place {
    if path == [] || t.E? then Box(b)
    else if |path| == 1 then (if path[0] then RightOf(t.addr) else LeftOf(t.addr))
    else Slot(b, if path[0] then t.right else t.left, path[1..])
  }

  lemma {:induction false} Down(b: int, t: Tree, path: seq<bool>, go: bool)
    requires Leads(t, path) && Sub(t, path).T?
    ensures var s := Sub(t, path);
      && Leads(t, path + [go]) && Sub(t, path + [go]) == (if go then s.right else s.left)
      && Slot(b, t, path + [go]) == (if go then RightOf(s.addr) else LeftOf(s.addr))
    ensures forall u ::
      Put(t, path + [go], u) == Put(t, path, if go then Sub(t, path).(right := u) else Sub(t, path).(left := u))
    decreases |path|
  {
    if path == [] {
      assert path + [go] == [go];
      assert [go][1..] == [];
    } else {
      var child := if path[0] then t.right else t.left;
      Down(b, child, path[1..], go);
      assert (path + [go])[1..] == path[1..] + [go] && (path + [go])[0] == path[0];
    }
  }

  lemma {:induction false} PutSelf(t: Tree, path: seq<bool>)
    requires Leads(t, path)
    ensures Put(t, path, Sub(t, path)) == t
    decreases |path|
  {
    if path != [] { PutSelf(if path[0] then t.right else t.left, path[1..]); }
  }

  lemma {:induction false} PutPut(b: int, t: Tree, path: seq<bool>, s: Tree, u: Tree)
    requires Leads(t, path)
    ensures Leads(Put(t, path, s), path) && Sub(Put(t, path, s), path) == s &&
      Put(Put(t, path, s), path, u) == Put(t, path, u)
    ensures Slot(b, Put(t, path, s), path) == Slot(b, t, path)
    decreases |path|
  {
    if path != [] { PutPut(b, if path[0] then t.right else t.left, path[1..], s, u); }
  }

  lemma {:induction false} SubHeld(nodes: map<int, Node>, t: Tree, path: seq<bool>)
    requires Held(nodes, t) && Distinct(t) && Leads(t, path)
    ensures Held(nodes, Sub(t, path)) && Distinct(Sub(t, path)) && Addrs(Sub(t, path)) <= Addrs(t)
    decreases |path|
  {
    if path != [] { SubHeld(nodes, if path[0] then t.right else t.left, path[1..]); }
  }

  /** The nodes of the tree above the path: all but those of the subtree. */
  lemma {:induction false} AddrsPut(t: Tree, path: seq<bool>, s: Tree)
    requires Distinct(t) && Leads(t, path)
    ensures Addrs(Put(t, path, s)) == Addrs(t) - Addrs(Sub(t, path)) + Addrs(s)
    decreases |path|
  {
    if path != [] {
      var child, other := if path[0] then t.right else t.left, if path[0] then t.left else t.right;
      AddrsPut(child, path[1..], s);
      SubAddrs(child, path[1..]);
    }
  }

  lemma {:induction false} SubAddrs(t: Tree, path: seq<bool>)
    requires Leads(t, path)
    ensures Addrs(Sub(t, path)) <= Addrs(t)
    decreases |path|
  {
    if path != [] { SubAddrs(if path[0] then t.right else t.left, path[1..]); }
  }

  // ---------------------------------------------------------------- storing through a place

  function Stored(nodes: map<int, Node>, at: Place, p: int): map<int, Node> {
    match at
    case Box(_) => nodes
    case LeftOf(a) => if a in nodes then nodes[a := nodes[a].(left := p)] else nodes
    case RightOf(a) => if a in nodes then nodes[a := nodes[a].(right := p)] else nodes
  }

  /** The place of a subtree lies in a node outside it. */
  lemma {:induction false} SlotOutside(b: int, t: Tree, path: seq<bool>)
    requires Distinct(t) && Leads(t, path)
    ensures Slot(b, t, path).Box? ==> path == [] && Slot(b, t, path) == Box(b)
    ensures !Slot(b, t, path).Box? ==> Slot(b, t, path).p in Addrs(t) - Addrs(Sub(t, path))
    decreases |path|
  {
    if |path| > 1 {
      var child := if path[0] then t.right else t.left;
      if child.T? {
        SlotOutside(b, child, path[1..]);
      }
      SubAddrs(child, path[1..]);
    } else if |path| == 1 {
      var child := if path[0] then t.right else t.left;
      assert path[1..] == [];
    }
  }

  /**
   * Memory has changed below the path only, where now s is; storing the address of s in the place of the old subtree
   * makes the whole tree the one with s put in.
   */
  lemma {:induction false} StoreHeld(b: int, nodes: map<int, Node>, now: map<int, Node>, t: Tree, path: seq<bool>,
                                     s: Tree)
    requires Held(nodes, t) && Distinct(t) && Leads(t, path) && Held(now, s) && Distinct(s)
    requires Addrs(s) !! Addrs(t) - Addrs(Sub(t, path))
    requires forall a :: a in Addrs(t) - Addrs(Sub(t, path)) && a in nodes ==> a in now && now[a] == nodes[a]
    ensures Held(Stored(now, Slot(b, t, path), Top(s)), Put(t, path, s)) && Distinct(Put(t, path, s))
    ensures path == [] ==> Top(Put(t, path, s)) == Top(s)
    ensures path != [] ==> Top(Put(t, path, s)) == Top(t)
    decreases |path|
  {
    if path != [] {
      var child, other := if path[0] then t.right else t.left, if path[0] then t.left else t.right;
      SubAddrs(child, path[1..]);
      StoreHeld(b, nodes, now, child, path[1..], s);
      AddrsPut(child, path[1..], s);
      StoreOther(b, nodes, now, t, path, s);
      if |path| == 1 { HeldFrame(now, Stored(now, Slot(b, t, path), Top(s)), s); }
    }
  }

  /** The root and the other subtree in the same situation. */
  lemma StoreOther(b: int, nodes: map<int, Node>, now: map<int, Node>, t: Tree, path: seq<bool>, s: Tree)
    requires Held(nodes, t) && Distinct(t) && Leads(t, path) && path != []
    requires Addrs(s) !! Addrs(t) - Addrs(Sub(t, path))
    requires forall a :: a in Addrs(t) - Addrs(Sub(t, path)) && a in nodes ==> a in now && now[a] == nodes[a]
    ensures var other, later := if path[0] then t.left else t.right, Stored(now, Slot(b, t, path), Top(s));
      && Held(later, other) && t.addr in later && Addrs(s) !! Addrs(other) && t.addr !in Addrs(s)
      && later[t.addr] == (if |path| > 1 then nodes[t.addr] else if path[0] then nodes[t.addr].(right := Top(s))
                           else nodes[t.addr].(left := Top(s)))
  {
    var child, other := if path[0] then t.right else t.left, if path[0] then t.left else t.right;
    SubAddrs(child, path[1..]);
    if |path| > 1 { SlotOutside(b, child, path[1..]); }
    HeldAddrs(nodes, t);
    HeldFrame(nodes, Stored(now, Slot(b, t, path), Top(s)), other);
  }

  /** The place, in a node or the box b whose content is root, holds p. */
  ghost predicate Points(nodes: map<int, Node>, at: Place, b: int, root: int, p: int) {
    match at
    case Box(c) => c == b && root == p
    case LeftOf(a) => a in nodes && nodes[a].left == p
    case RightOf(a) => a in nodes && nodes[a].right == p
  }

  /** The place exists. */
  predicate Known(boxes: map<int, int>, nodes: map<int, Node>, at: Place) {
    if at.Box? then at.b in boxes else at.p in nodes
  }

  /** The place of a subtree holds its address. */
  lemma {:induction false} SlotHolds(b: int, nodes: map<int, Node>, t: Tree, path: seq<bool>)
    requires Held(nodes, t) && Leads(t, path)
    ensures Points(nodes, Slot(b, t, path), b, Top(t), Top(Sub(t, path)))
    ensures Slot(b, t, path).Box? ==> path == []
    decreases |path|
  {
    if |path| > 1 {
      var child := if path[0] then t.right else t.left;
      SlotHolds(b, nodes, child, path[1..]);
    } else if |path| == 1 {
      assert path[1..] == [];
    }
  }

  lemma NullIsEmpty(nodes: map<int, Node>, t: Tree)
    requires Held(nodes, t)
    ensures Top(t) == 0 <==> t == E
    ensures t.T? ==> t.addr in nodes && nodes[t.addr] == Node(t.key, t.value, Top(t.left), Top(t.right))
  {
  }

  // ---------------------------------------------------------------- the pieces of the three changes

  /** A leaf at a new address. */
  lemma NewLeaf(b: int, nodes: map<int, Node>, t: Tree, path: seq<bool>, spot: int, x: int, v: int)
    requires Held(nodes, t) && Distinct(t) && Leads(t, path) && Sub(t, path) == E && spot > 0 && spot !in nodes
    ensures var s := T(spot, x, v, E, E);
      Held(Stored(nodes[spot := Node(x, v, 0, 0)], Slot(b, t, path), spot), Put(t, path, s)) &&
        Distinct(Put(t, path, s))
    ensures Top(Put(t, path, T(spot, x, v, E, E))) == if path == [] then spot else Top(t)
  {
    HeldAddrs(nodes, t);
    StoreHeld(b, nodes, nodes[spot := Node(x, v, 0, 0)], t, path, T(spot, x, v, E, E));
  }

  /** Another value in place. */
  lemma NewValue(b: int, nodes: map<int, Node>, t: Tree, path: seq<bool>, v: int)
    requires Held(nodes, t) && Distinct(t) && Leads(t, path) && Sub(t, path).T?
    ensures var s := Sub(t, path);
      s.addr in nodes && Held(nodes[s.addr := nodes[s.addr].(value := v)], Put(t, path, s.(value := v)))
      && Distinct(Put(t, path, s.(value := v))) && Top(Put(t, path, s.(value := v))) == Top(t)
  {
    var s := Sub(t, path);
    SubHeld(nodes, t, path);
    var now := nodes[s.addr := nodes[s.addr].(value := v)];
    HeldFrame(nodes, now, s.left);
    HeldFrame(nodes, now, s.right);
    StoreHeld(b, nodes, now, t, path, s.(value := v));
    SlotHolds(b, nodes, t, path);
    SlotOutside(b, t, path);
    SubAddrs(t, path);
    assert Stored(now, Slot(b, t, path), s.addr) == now;
  }

  /** turn_left on the nodes: first the two fields, then the place. */
  function TurnedNodes(nodes: map<int, Node>, l: int, r: int): map<int, Node>
    requires l in nodes && r in nodes
  {
    var step := nodes[l := nodes[l].(right := nodes[r].left)];
    step[r := step[r].(left := l)]
  }

  lemma TurnHeld(nodes: map<int, Node>, s: Tree)
    requires Held(nodes, s) && Distinct(s) && s.T? && s.right.T?
    ensures s.addr in nodes && s.right.addr in nodes
    ensures Held(TurnedNodes(nodes, s.addr, s.right.addr), Turned(s)) && Distinct(Turned(s))
    ensures Addrs(Turned(s)) == Addrs(s) && Size(Turned(s).left.right) < Size(s.right)
  {
    var now, r := TurnedNodes(nodes, s.addr, s.right.addr), s.right;
    HeldFrame(nodes, now, s.left);
    HeldFrame(nodes, now, r.left);
    HeldFrame(nodes, now, r.right);
  }

  lemma TurnWhole(b: int, nodes: map<int, Node>, t: Tree, path: seq<bool>)
    requires Held(nodes, t) && Distinct(t) && Leads(t, path) && Sub(t, path).T? && Sub(t, path).right.T?
    ensures var s := Sub(t, path);
      && s.addr in nodes && s.right.addr in nodes && Addrs(Put(t, path, Turned(s))) == Addrs(t)
      && Held(Stored(TurnedNodes(nodes, s.addr, s.right.addr), Slot(b, t, path), s.right.addr), Put(t, path, Turned(s)))
      && Distinct(Put(t, path, Turned(s)))
      && Top(Put(t, path, Turned(s))) == (if path == [] then s.right.addr else Top(t))
  {
    var s := Sub(t, path);
    SubHeld(nodes, t, path);
    TurnHeld(nodes, s);
    AddrsPut(t, path, Turned(s));
    StoreHeld(b, nodes, TurnedNodes(nodes, s.addr, s.right.addr), t, path, Turned(s));
  }

  /** After a turn the walk goes on at the old root, one to the left, with the same end in view. */
  lemma TurnPath(b: int, t: Tree, path: seq<bool>)
    requires Leads(t, path) && Sub(t, path).T? && Sub(t, path).right.T?
    ensures var s := Sub(t, path);
      var u, next := Put(t, path, Turned(s)), path + [false];
      && Leads(u, next) && Sub(u, next) == Turned(s).left && Slot(b, u, next) == LeftOf(s.right.addr)
      && Put(u, next, Pushed(Sub(u, next))) == Put(t, path, Pushed(s))
  {
    var s := Sub(t, path);
    var u := Put(t, path, Turned(s));
    PutPut(b, t, path, Turned(s), Pushed(s));
    Down(b, u, path, false);
    assert Pushed(s) == Turned(s).(left := Pushed(Turned(s).left));
  }

  /** Taking out a node without right child. */
  lemma CutNode(b: int, nodes: map<int, Node>, t: Tree, path: seq<bool>)
    requires Held(nodes, t) && Distinct(t) && Leads(t, path) && Sub(t, path).T? && Sub(t, path).right.E?
    ensures var s := Sub(t, path); var u := Put(t, path, s.left);
      && Held(Stored(nodes, Slot(b, t, path), Top(s.left)) - {s.addr}, u) && Distinct(u)
      && Addrs(u) == Addrs(t) - {s.addr} && Top(u) == (if path == [] then Top(s.left) else Top(t))
  {
    var s := Sub(t, path);
    SubHeld(nodes, t, path);
    AddrsPut(t, path, s.left);
    SubAddrs(t, path);
    StoreHeld(b, nodes, nodes, t, path, s.left);
    var later := Stored(nodes, Slot(b, t, path), Top(s.left));
    HeldFrame(later, later - {s.addr}, Put(t, path, s.left));
  }

  // ---------------------------------------------------------------- what the loops look at

  lemma PathStart(b: int, t: Tree)
    ensures Leads(t, []) && Slot(b, t, []) == Box(b) && Sub(t, []) == t && forall u :: Put(t, [], u) == u
  {
  }

  /** The place holds the address of the subtree, and its node is there. */
  lemma AtPlace(b: int, nodes: map<int, Node>, t: Tree, path: seq<bool>)
    requires Held(nodes, t) && Distinct(t) && Leads(t, path)
    ensures var s := Sub(t, path);
      && Points(nodes, Slot(b, t, path), b, Top(t), Top(s))
      && (Top(s) == 0 <==> s == E)
      && (s.T? ==> s.addr in nodes && nodes[s.addr] == Node(s.key, s.value, Top(s.left), Top(s.right)))
  {
    SlotHolds(b, nodes, t, path);
    SubHeld(nodes, t, path);
  }

  /** Which nodes a change at the path concerns. */
  lemma PlaceAddrs(b: int, nodes: map<int, Node>, t: Tree, path: seq<bool>, s: Tree)
    requires Held(nodes, t) && Distinct(t) && Leads(t, path)
    ensures Addrs(Put(t, path, s)) == Addrs(t) - Addrs(Sub(t, path)) + Addrs(s)
    ensures (forall a :: a in Addrs(t) ==> a in nodes) && Addrs(Sub(t, path)) <= Addrs(t)
    ensures !Slot(b, t, path).Box? ==> Slot(b, t, path).p in Addrs(t) && path != []
    ensures Slot(b, t, path).Box? ==> path == []
    ensures Sub(t, path).T? ==> Sub(t, path).addr in Addrs(t)
  {
    AddrsPut(t, path, s);
    HeldAddrs(nodes, t);
    hide Held;
    SlotOutside(b, t, path);
    SubAddrs(t, path);
  }

  lemma KeysGrow(nodes: map<int, Node>, t: Tree, path: seq<bool>, s: Tree, more: set<int>)
    requires Held(nodes, t) && Distinct(t) && Leads(t, path) && Addrs(s) == Addrs(Sub(t, path)) + more
    ensures nodes.Keys + Addrs(Put(t, path, s)) == nodes.Keys + more
  {
    HeldAddrs(nodes, t);
    AddrsPut(t, path, s);
    SubAddrs(t, path);
    hide Addrs, Held;
    forall a | a in Addrs(t) ensures a in nodes.Keys {}
  }

  lemma StoredFrame(nodes: map<int, Node>, at: Place, p: int)
    ensures Stored(nodes, at, p).Keys == nodes.Keys
    ensures forall a :: a in nodes && (at.Box? || a != at.p) ==> Stored(nodes, at, p)[a] == nodes[a]
  {
  }

  lemma InsertStep(s: Tree, x: int, v: int, spot: int)
    ensures s.E? ==>
      Inserted(s, x, v, spot) == T(spot, x, v, E, E) && Addrs(T(spot, x, v, E, E)) == {spot} && Addrs(s) == {}
    ensures s.T? && x < s.key ==> Inserted(s, x, v, spot) == s.(left := Inserted(s.left, x, v, spot))
    ensures s.T? && s.key < x ==> Inserted(s, x, v, spot) == s.(right := Inserted(s.right, x, v, spot))
    ensures s.T? && x == s.key ==> Inserted(s, x, v, spot) == s.(value := v) && Addrs(s.(value := v)) == Addrs(s)
  {
  }

  lemma DeleteStep(s: Tree, x: int)
    ensures s.E? ==> Deleted(s, x) == E
    ensures s.T? && x < s.key ==> Deleted(s, x) == s.(left := Deleted(s.left, x))
    ensures s.T? && s.key < x ==> Deleted(s, x) == s.(right := Deleted(s.right, x))
    ensures s.T? && x == s.key ==> Deleted(s, x) == Pushed(s)
  {
  }

  lemma {:induction false} PushedAddrs(s: Tree)
    requires s.T? && Distinct(s)
    ensures Addrs(Pushed(s)) == Addrs(s) - {s.addr}
    decreases Size(s.right)
  {
    if s.right.T? {
      TurnedAddrs(s);
      PushedAddrs(Turned(s).left);
    }
  }

  lemma TurnedAddrs(s: Tree)
    requires s.T? && s.right.T? && Distinct(s)
    ensures Distinct(Turned(s)) && Addrs(Turned(s)) == Addrs(s)
  {
    var u, l, m, r := Turned(s), Addrs(s.left), Addrs(s.right.left), Addrs(s.right.right);
    assert Addrs(s.right) == {s.right.addr} + m + r;
    assert Addrs(u.left) == {s.addr} + l + m;
    assert {s.right.addr} + ({s.addr} + l + m) + r == {s.addr} + l + ({s.right.addr} + m + r);
  }

  // ---------------------------------------------------------------- the code

  class Memory {
    var boxes: map<int, int>
    var nodes: map<int, Node>

    /** The tree in box b. */
    ghost predicate Holds(b: int, t: Tree)
      reads this
    {
      b in boxes && boxes[b] == Top(t) && Held(nodes, t) && Distinct(t)
    }

    /** *t */
    function Get(at: Place): int
      reads this
      requires Known(boxes, nodes, at)
    {
      match at
      case Box(b) => boxes[b]
      case LeftOf(p) => nodes[p].left
      case RightOf(p) => nodes[p].right
    }

    /** *t = p */
    method Set(at: Place, p: int)
      requires Known(boxes, nodes, at)
      modifies this
      ensures nodes == Stored(old(nodes), at, p)
      ensures boxes == if at.Box? then old(boxes)[at.b := p] else old(boxes)
    {
      match at
      case Box(b) => boxes := boxes[b := p];
      case LeftOf(a) => nodes := nodes[a := nodes[a].(left := p)];
      case RightOf(a) => nodes := nodes[a := nodes[a].(right := p)];
    }

    /** treebox_new; spot is what mallocN returns. */
    method TreeboxNew(spot: int) returns (b: int)
      requires spot !in boxes
      modifies this`boxes
      ensures b == spot && Holds(b, E) && boxes == old(boxes)[b := 0]
    {
      b := spot;
      boxes := boxes[b := 0];
    }

    /** insert; spot is what mallocN returns if a node is needed. */
    method Insert(box: int, x: int, value: int, spot: int, ghost t: Tree)
      requires Holds(box, t) && spot > 0 && spot !in nodes
      modifies this
      ensures Holds(box, Inserted(t, x, value, spot))
      ensures boxes == old(boxes)[box := boxes[box]]
      ensures nodes.Keys == old(nodes.Keys) + Addrs(Inserted(t, x, value, spot))
      ensures forall a :: a in old(nodes) && a !in Addrs(t) ==> nodes[a] == old(nodes)[a]
    {
      hide Held, Distinct, Leads, Sub, Put, Slot, Stored, Inserted, Addrs;
      var at := Box(box);
      ghost var path: seq<bool> := [];
      PathStart(box, t);
      while true
        invariant nodes == old(nodes) && boxes == old(boxes) && Leads(t, path) && at == Slot(box, t, path)
        invariant Inserted(t, x, value, spot) == Put(t, path, Inserted(Sub(t, path), x, value, spot))
        decreases Sub(t, path)
      {
        ghost var s := Sub(t, path);
        AtPlace(box, nodes, t, path);
        var p := Get(at);
        InsertStep(s, x, value, spot);
        if p == 0 {
          NewLeaf(box, nodes, t, path, spot, x, value);
          PlaceAddrs(box, nodes, t, path, T(spot, x, value, E, E));
          KeysGrow(nodes, t, path, T(spot, x, value, E, E), {spot});
          nodes := nodes[spot := Node(x, value, 0, 0)];
          StoredFrame(nodes, at, spot);
          Set(at, spot);
          return;
        }
        var y := nodes[p].key;
        Down(box, t, path, y < x);
        if x < y {
          at := LeftOf(p);
          path := path + [false];
        } else if y < x {
          at := RightOf(p);
          path := path + [true];
        } else {
          NewValue(box, nodes, t, path, value);
          PlaceAddrs(box, nodes, t, path, s.(value := value));
          KeysGrow(nodes, t, path, s.(value := value), {});
          nodes := nodes[p := nodes[p].(value := value)];
          assert boxes == boxes[box := boxes[box]];
          return;
        }
      }
    }

    /** lookup */
    method Lookup(box: int, x: int, ghost t: Tree) returns (v: int)
      requires Holds(box, t)
      ensures v == Found(t, x)
    {
      var p := boxes[box];
      ghost var s := t;
      while p != 0
        invariant p == Top(s) && Held(nodes, s) && Found(s, x) == Found(t, x)
        decreases s
      {
        var y := nodes[p].key;
        if x < y {
          p, s := nodes[p].left, s.left;
        } else if y < x {
          p, s := nodes[p].right, s.right;
        } else {
          v := nodes[p].value;
          return;
        }
      }
      NullIsEmpty(nodes, s);
      v := 0;
    }

    /** turn_left */
    method TurnLeft(at: Place, l: int, r: int)
      requires Known(boxes, nodes, at)
      requires l in nodes && r in nodes
      modifies this
      ensures nodes == Stored(TurnedNodes(old(nodes), l, r), at, r)
      ensures boxes == if at.Box? then old(boxes)[at.b := r] else old(boxes)
    {
      var mid := nodes[r].left;
      nodes := nodes[l := nodes[l].(right := mid)];
      nodes := nodes[r := nodes[r].(left := l)];
      Set(at, r);
    }

    /** pushdown_left: takes out the root of the subtree at a place, given here as box, tree and path. */
    method PushdownLeft(t0: Place, ghost box: int, ghost t: Tree, ghost path: seq<bool>)
      requires Holds(box, t) && Leads(t, path) && t0 == Slot(box, t, path) && Sub(t, path).T?
      modifies this
      ensures Holds(box, Put(t, path, Pushed(Sub(t, path))))
      ensures boxes == old(boxes)[box := boxes[box]]
      ensures nodes.Keys == old(nodes.Keys) - {Sub(t, path).addr}
      ensures forall a :: a in old(nodes) && a !in Addrs(t) ==> a in nodes && nodes[a] == old(nodes)[a]
    {
      hide Held, Distinct, Leads, Sub, Put, Slot, Stored, Pushed, Turned, TurnedNodes, Addrs, Size;
      var at := t0;
      ghost var u, q, goal := t, path, Put(t, path, Pushed(Sub(t, path)));
      AtPlace(box, nodes, t, path);
      PlaceAddrs(box, nodes, t, path, E);
      assert boxes == boxes[box := boxes[box]];
      while true
        invariant Holds(box, u) && Leads(u, q) && at == Slot(box, u, q) && Sub(u, q).T?
        invariant Put(u, q, Pushed(Sub(u, q))) == goal && Sub(u, q).addr == Sub(t, path).addr && Addrs(u) == Addrs(t)
        invariant boxes == old(boxes)[box := boxes[box]] && nodes.Keys == old(nodes.Keys)
        invariant forall a :: a in old(nodes) && a !in Addrs(t) ==> nodes[a] == old(nodes)[a]
        decreases Size(Sub(u, q).right)
      {
        ghost var s := Sub(u, q);
        AtPlace(box, nodes, u, q);
        var p := Get(at);
        var r := nodes[p].right;
        SubHeld(nodes, u, q);
        Children(nodes, s);
        if r == 0 {
          PushedLast(s);
          TakeOut(at, p, box, u, q);
          return;
        }
        TurnPath(box, u, q);
        TurnedParts(s);
        TurnAt(at, p, r, box, u, q);
        u, q := Put(u, q, Turned(s)), q + [false];
        at := LeftOf(r);
      }
    }

    /** The call of turn_left, seen on the whole tree. */
    method TurnAt(at: Place, p: int, r: int, ghost box: int, ghost u: Tree, ghost q: seq<bool>)
      requires Holds(box, u) && Leads(u, q) && at == Slot(box, u, q)
      requires Sub(u, q).T? && Sub(u, q).right.T? && p == Sub(u, q).addr && r == Sub(u, q).right.addr
      modifies this
      ensures Holds(box, Put(u, q, Turned(Sub(u, q)))) && Addrs(Put(u, q, Turned(Sub(u, q)))) == Addrs(u)
      ensures boxes == old(boxes)[box := boxes[box]] && nodes.Keys == old(nodes.Keys)
      ensures forall a :: a in old(nodes) && a !in Addrs(u) ==> nodes[a] == old(nodes)[a]
    {
      hide Held, Distinct, Leads, Sub, Put, Slot, Stored, Turned, TurnedNodes, Addrs;
      AtPlace(box, nodes, u, q);
      PlaceAddrs(box, nodes, u, q, E);
      RightIn(Sub(u, q));
      TurnWhole(box, nodes, u, q);
      TurnFrame(nodes, at, p, r);
      assert boxes == boxes[box := boxes[box]];
      TurnLeft(at, p, r);
    }

    /** The end of pushdown_left. */
    method TakeOut(at: Place, p: int, ghost box: int, ghost u: Tree, ghost q: seq<bool>)
      requires Holds(box, u) && Leads(u, q) && at == Slot(box, u, q)
      requires Sub(u, q).T? && Sub(u, q).right.E? && p == Sub(u, q).addr
      modifies this
      ensures Holds(box, Put(u, q, Sub(u, q).left))
      ensures boxes == old(boxes)[box := boxes[box]] && nodes.Keys == old(nodes.Keys) - {p}
      ensures forall a :: a in old(nodes) && a !in Addrs(u) ==> a in nodes && nodes[a] == old(nodes)[a]
    {
      hide Held, Distinct, Leads, Sub, Put, Slot, Stored, Addrs;
      AtPlace(box, nodes, u, q);
      PlaceAddrs(box, nodes, u, q, E);
      CutNode(box, nodes, u, q);
      StoredFrame(nodes, at, nodes[p].left);
      assert boxes == boxes[box := boxes[box]];
      var l := nodes[p].left;
      Set(at, l);
      nodes := nodes - {p};
    }

    /** delete */
    method Delete(box: int, x: int, ghost t: Tree)
      requires Holds(box, t)
      modifies this
      ensures Holds(box, Deleted(t, x))
      ensures boxes == old(boxes)[box := boxes[box]]
      ensures nodes.Keys == old(nodes.Keys) - (Addrs(t) - Addrs(Deleted(t, x)))
      ensures forall a :: a in old(nodes) && a !in Addrs(t) ==> a in nodes && nodes[a] == old(nodes)[a]
    {
      hide Held, Distinct, Leads, Sub, Put, Slot, Deleted;
      var at := Box(box);
      ghost var path: seq<bool> := [];
      PathStart(box, t);
      assert boxes == boxes[box := boxes[box]];
      while true
        invariant nodes == old(nodes) && boxes == old(boxes) && Leads(t, path) && at == Slot(box, t, path)
        invariant Deleted(t, x) == Put(t, path, Deleted(Sub(t, path), x))
        decreases Sub(t, path)
      {
        ghost var s := Sub(t, path);
        AtPlace(box, nodes, t, path);
        DeleteStep(s, x);
        var p := Get(at);
        if p == 0 {
          PutSelf(t, path);
          assert nodes.Keys == nodes.Keys - {};
          return;
        }
        var y := nodes[p].key;
        Down(box, t, path, y < x);
        if x < y {
          at := LeftOf(p);
          path := path + [false];
        } else if y < x {
          at := RightOf(p);
          path := path + [true];
        } else {
          RemovedAddrs(nodes, t, path);
          PushdownLeft(at, box, t, path);
          return;
        }
      }
    }

    /** tree_free */
    method TreeFree(p: int, ghost t: Tree)
      requires p == Top(t) && Held(nodes, t) && Distinct(t)
      modifies this`nodes
      ensures nodes == old(nodes) - Addrs(t)
      decreases t
    {
      if p != 0 {
        var pa, pb := nodes[p].left, nodes[p].right;
        ghost var before := nodes;
        nodes := nodes - {p};
        HeldFrame(before, nodes, t.left);
        HeldFrame(before, nodes, t.right);
        ghost var between := nodes;
        TreeFree(pa, t.left);
        HeldFrame(between, nodes, t.right);
        TreeFree(pb, t.right);
        assert nodes == before - Addrs(t);
      } else {
        NullIsEmpty(nodes, t);
      }
    }

    /** treebox_free */
    method TreeboxFree(b: int, ghost t: Tree)
      requires Holds(b, t)
      modifies this
      ensures nodes == old(nodes) - Addrs(t) && boxes == old(boxes) - {b}
    {
      var p := boxes[b];
      TreeFree(p, t);
      boxes := boxes - {b};
    }
  }

  lemma Children(nodes: map<int, Node>, s: Tree)
    requires Held(nodes, s) && s.T?
    ensures Top(s.left) == 0 <==> s.left == E
    ensures Top(s.right) == 0 <==> s.right == E
    ensures s.right.T? ==> s.right.addr in nodes
  {
    NullIsEmpty(nodes, s.left);
    NullIsEmpty(nodes, s.right);
  }

  lemma RightIn(s: Tree)
    requires s.T? && s.right.T?
    ensures s.right.addr in Addrs(s)
  {
  }

  lemma PushedLast(s: Tree)
    requires s.T? && s.right.E?
    ensures Pushed(s) == s.left
  {
  }

  lemma TurnedParts(s: Tree)
    requires s.T? && s.right.T?
    ensures Turned(s).left.T? && Turned(s).left.addr == s.addr && Turned(s).left.right == s.right.left
    ensures Size(s.right.left) < Size(s.right)
  {
  }

  lemma TurnFrame(nodes: map<int, Node>, at: Place, l: int, r: int)
    requires l in nodes && r in nodes
    ensures Stored(TurnedNodes(nodes, l, r), at, r).Keys == nodes.Keys
    ensures forall a :: a in nodes && a != l && a != r && (at.Box? || a != at.p) ==>
      Stored(TurnedNodes(nodes, l, r), at, r)[a] == nodes[a]
  {
    StoredFrame(TurnedNodes(nodes, l, r), at, r);
    hide Stored;
  }

  lemma RemovedAddrs(nodes: map<int, Node>, t: Tree, path: seq<bool>)
    requires Held(nodes, t) && Distinct(t) && Leads(t, path) && Sub(t, path).T?
    ensures Addrs(t) - Addrs(Put(t, path, Pushed(Sub(t, path)))) == {Sub(t, path).addr}
  {
    SubHeld(nodes, t, path);
    AddrsPut(t, path, Pushed(Sub(t, path)));
    PushedAddrs(Sub(t, path));
    RootIn(Sub(t, path));
  }

  lemma RootIn(s: Tree)
    requires s.T?
    ensures s.addr in Addrs(s)
  {
  }

  /** A delete of a key that is there frees exactly one node. */
  lemma DeleteFreesOne(nodes: map<int, Node>, t: Tree, x: int)
    requires Held(nodes, t) && Distinct(t) && SearchTree(t)
    ensures Addrs(Deleted(t, x)) <= Addrs(t)
    ensures |Addrs(t) - Addrs(Deleted(t, x))| == if x in Content(t) then 1 else 0
  {
    DeletedAddrs(t, x);
    LookupPath(t, x);
    if x !in Content(t) {
      assert Addrs(t) - Addrs(Deleted(t, x)) == {};
    }
  }

  ghost predicate Reaches(t: Tree, x: int) {
    t.T? && (if x < t.key then Reaches(t.left, x) else if t.key < x then Reaches(t.right, x) else true)
  }

  lemma {:induction false} DeletedAddrs(t: Tree, x: int)
    requires Distinct(t)
    ensures Addrs(Deleted(t, x)) <= Addrs(t)
    ensures Reaches(t, x) ==> exists a :: a in Addrs(t) && Addrs(t) - Addrs(Deleted(t, x)) == {a}
    ensures !Reaches(t, x) ==> Deleted(t, x) == t
    decreases t
  {
    if t.T? {
      if x < t.key {
        DeletedAddrs(t.left, x);
        if Reaches(t.left, x) {
          var a :| a in Addrs(t.left) && Addrs(t.left) - Addrs(Deleted(t.left, x)) == {a};
          assert Addrs(t) - Addrs(Deleted(t, x)) == {a};
        }
      } else if t.key < x {
        DeletedAddrs(t.right, x);
        if Reaches(t.right, x) {
          var a :| a in Addrs(t.right) && Addrs(t.right) - Addrs(Deleted(t.right, x)) == {a};
          assert Addrs(t) - Addrs(Deleted(t, x)) == {a};
        }
      } else {
        PushedAddrs(t);
        assert Addrs(t) - Addrs(Pushed(t)) == {t.addr};
      }
    }
  }

  /** In a search tree the walk reaches exactly the keys that are there. */
  lemma {:induction false} LookupPath(t: Tree, x: int)
    requires SearchTree(t)
    ensures Reaches(t, x) <==> x in Content(t)
    decreases t
  {
    if t.T? {
      Subtrees(t);
      var s, p, u := Inorder(t.left), (t.key, t.value), Inorder(t.right);
      SortedParts(s, p, u);
      hide SearchTree, Sorted;
      InContent(t, x);
      InContent(t.left, x);
      InContent(t.right, x);
      LookupPath(t.left, x);
      LookupPath(t.right, x);
      KeysOf(s, p, u, x);
    }
  }

  ghost predicate HasKey(s: seq<(int, int)>, x: int) {
    exists i :: 0 <= i < |s| && s[i].0 == x
  }

  lemma InContent(t: Tree, x: int)
    ensures x in Content(t) <==> HasKey(Inorder(t), x)
  {
  }

  lemma KeysOf(s: seq<(int, int)>, p: (int, int), u: seq<(int, int)>, x: int)
    ensures HasKey(s + [p] + u, x) <==> HasKey(s, x) || p.0 == x || HasKey(u, x)
  {
    var w := s + [p] + u;
    if HasKey(s, x) { var i :| 0 <= i < |s| && s[i].0 == x; assert w[i].0 == x; }
    if p.0 == x { assert w[|s|].0 == x; }
    if HasKey(u, x) { var i :| 0 <= i < |u| && u[i].0 == x; assert w[|s| + 1 + i].0 == x; }
    if HasKey(w, x) { var i :| 0 <= i < |w| && w[i].0 == x; Elements(s, [p], u, i); }
  }
}
