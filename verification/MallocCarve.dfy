/** The chunks of malloc.c. */
module MallocCarve {
  // Cutting a big block into the chunks of one bin.

  import Limbs
  import opened MallocSizes
  import opened MallocHeap

  /** Chunks per big block. */
  function Chunks(b: nat): (n: nat) {
    (BIG - 1) / (2 * b + 2)
  }

  /** The address of chunk j; the first word of the mapping is wasted, the second is a header. */
  function At(p: int, b: nat, j: nat): int {
    p + 2 + j * (2 * b + 2)
  }

  lemma AtNext(p: int, b: nat, j: nat)
    ensures At(p, b, 0) == p + 2 && At(p, b, j + 1) == At(p, b, j) + (2 * b + 2)
  {
    Limbs.Distribute(j, 1, 2 * b + 2);
  }

  /** Chunks come one after the other. */
  lemma AtOrder(p: int, b: nat, i: nat, j: nat)
    requires i < j
    ensures At(p, b, i) + 2 * b + 1 <= At(p, b, j) - 1
  {
    Limbs.MulAtLeast(j - i, 2 * b + 2);
    Limbs.Distribute(j, i, 2 * b + 2);
  }

  /** They are aligned and inside the mapping. */
  lemma AtInside(p: int, b: nat, j: nat)
    requires j < Chunks(b) && p % 2 == 0
    ensures p + 2 <= At(p, b, j) && At(p, b, j) + 2 * b + 1 <= p + BIG && At(p, b, j) % 2 == 0
  {
    var k, n := 2 * b + 2, Chunks(b);
    var q, r := Quotient(BIG - 1, k);
    Limbs.MulNonNeg(j, k);
    Limbs.MulNonNeg(n - 1 - j, k);
    Limbs.Distribute(n - 1, j, k);
    Limbs.Distribute(n, 1, k);
    EvenProduct(j, b);
  }

  lemma EvenProduct(j: nat, b: nat)
    ensures (j * (2 * b + 2)) % 2 == 0
  {
    var u := j * (b + 1);
    assert j * (2 * b + 2) == u + u by { Limbs.Distribute(b + 1, b + 1, j); assert j * (2 * b + 2) == (2 * b + 2) * j; }
  }

  function Carved(p: int, b: nat, n: nat): (s: seq<int>)
    ensures |s| == n
  {
    seq(n, j requires 0 <= j < n => At(p, b, j))
  }

  lemma CarvedNoDup(p: int, b: nat, n: nat)
    ensures NoDup(Carved(p, b, n))
  {
    forall i, j | 0 <= i < j < n ensures Carved(p, b, n)[i] != Carved(p, b, n)[j] { AtOrder(p, b, i, j); }
  }

  /** What list_from_block leaves in memory: headers and links of n chunks, then tl; nothing else changes. */
  ghost predicate Threaded(W: nat, was: map<int, int>, mem: map<int, int>, p: int, b: nat, n: nat, tl: int) {
    && mem.Keys == was.Keys
    && (forall k :: k in was && !(p <= k < p + BIG) ==> mem[k] == was[k])
    && (forall j :: 0 <= j < n ==>
          && At(p, b, j) in mem && At(p, b, j) - 1 in mem
          && mem[At(p, b, j) - 1] == Bin2Size(W, b)
          && mem[At(p, b, j)] == NextAt(p, b, n, tl, j))
  }

  function NextAt(p: int, b: nat, n: nat, tl: int, j: nat): int {
    if j + 1 < n then At(p, b, j + 1) else tl
  }

  /** The store after the chunks of the vacant mapping at p have been put before list b. */
  ghost function WithChunks(m: Store, mem: map<int, int>, p: int, b: nat): Store
    requires b < |m.bins| && b < |m.lists|
  {
    var c := Carved(p, b, Chunks(b));
    m.(mem := mem, bins := m.bins[b := p + 2], lists := m.lists[b := c + m.lists[b]],
       blocks := map a | a in m.blocks.Keys + (set x | x in c) :: if a in m.blocks then m.blocks[a] else Small(b, p))
  }

  ghost predicate Ready(W: nat, m: Store, p: int)
    requires W > 0
  {
    Sound(W, m) && Vacant(m, p) && p in m.mapped && m.mapped[p] == BIG * W
  }

  lemma ChunksPositive(b: nat)
    requires b < BINS
    ensures Chunks(b) >= 1
  {
    ChunkCount(1, b);
  }

  /** Old blocks and new chunks do not meet. */
  lemma ChunkApart(W: nat, m: Store, p: int, b: nat, a: int, j: nat)
    requires W > 0 && Ready(W, m, p) && b < BINS && a in m.blocks && j < Chunks(b)
    ensures a + Span(W, m.blocks[a]) <= At(p, b, j) - 1 || At(p, b, j) + 2 * b + 1 <= a - 1
    ensures a != At(p, b, j)
  {
    ClearOf(W, m, p, a);
    BigWords(W, 0);
    AtInside(p, b, j);
    SpanPositive(W, m, a);
  }

  lemma NewIndex(p: int, b: nat, n: nat, a: int) returns (j: nat)
    requires a in Carved(p, b, n)
    ensures j < n && a == At(p, b, j)
  {
    j :| 0 <= j < n && Carved(p, b, n)[j] == a;
  }

  /** The old blocks are in the new store as they were; the others are the new chunks. */
  lemma BlocksOf(W: nat, m: Store, mem: map<int, int>, p: int, b: nat, a: int)
    requires W > 0 && Ready(W, m, p) && b < BINS
    ensures var n := WithChunks(m, mem, p, b);
      && (a in m.blocks ==> a in n.blocks && n.blocks[a] == m.blocks[a] && a !in Carved(p, b, Chunks(b)))
      && (a in Carved(p, b, Chunks(b)) ==> a in n.blocks && n.blocks[a] == Small(b, p) && a !in m.blocks)
      && (a in n.blocks ==> a in m.blocks || a in Carved(p, b, Chunks(b)))
  {
    if a in Carved(p, b, Chunks(b)) {
      var j := NewIndex(p, b, Chunks(b), a);
      hide At, Chunks;
      if a in m.blocks { ChunkApart(W, m, p, b, a, j); }
    }
  }

  lemma CarveMappings(W: nat, m: Store, mem: map<int, int>, p: int, b: nat)
    requires W > 0 && Mappings(W, m) && mem.Keys == m.mem.Keys && b < |m.bins| && b < |m.lists|
    ensures Mappings(W, WithChunks(m, mem, p, b))
  {
  }

  /** One block of the new store. */
  lemma CarvePlaced(W: nat, m: Store, mem: map<int, int>, p: int, b: nat, a: int)
    requires W > 0 && Ready(W, m, p) && b < BINS && Threaded(W, m.mem, mem, p, b, Chunks(b), m.bins[b])
    requires a in WithChunks(m, mem, p, b).blocks
    ensures var n := WithChunks(m, mem, p, b);
      Placed(W, m.mapped, a, n.blocks[a]) && a - 1 in mem && mem[a - 1] == SizeOf(W, n.blocks[a])
  {
    hide At, Chunks;
    BlocksOf(W, m, mem, p, b, a);
    if a in m.blocks {
      OldHeader(W, m, mem, p, b, a);
    } else {
      var j := NewIndex(p, b, Chunks(b), a);
      hide Sound, Vacant;
      MappingEven(W, m, p);
      AtInside(p, b, j);
    }
  }

  lemma MappingEven(W: nat, m: Store, p: int)
    requires W > 0 && Sound(W, m) && p in m.mapped
    ensures p % 2 == 0 && p > 0
  {
  }

  lemma OldHeader(W: nat, m: Store, mem: map<int, int>, p: int, b: nat, a: int)
    requires W > 0 && Ready(W, m, p) && b < BINS && Threaded(W, m.mem, mem, p, b, Chunks(b), m.bins[b]) && a in m.blocks
    ensures Placed(W, m.mapped, a, m.blocks[a]) && a - 1 in mem && mem[a - 1] == SizeOf(W, m.blocks[a])
    ensures forall k :: a - 1 <= k < a + Span(W, m.blocks[a]) && k in m.mem ==> mem[k] == m.mem[k]
  {
    ClearOf(W, m, p, a);
    BigWords(W, 0);
    SpanPositive(W, m, a);
  }

  /** Two blocks of the new store. */
  lemma CarveApart(W: nat, m: Store, mem: map<int, int>, p: int, b: nat, a: int, c: int)
    requires W > 0 && Ready(W, m, p) && b < BINS
    requires var n := WithChunks(m, mem, p, b); a in n.blocks && c in n.blocks && a < c
    ensures a + Span(W, WithChunks(m, mem, p, b).blocks[a]) <= c - 1
  {
    hide At, Chunks;
    BlocksOf(W, m, mem, p, b, a);
    BlocksOf(W, m, mem, p, b, c);
    if a !in m.blocks {
      var i := NewIndex(p, b, Chunks(b), a);
      if c !in m.blocks {
        var j := NewIndex(p, b, Chunks(b), c);
        NewApart(p, b, i, j);
      } else {
        ChunkApart(W, m, p, b, c, i);
        SpanPositive(W, m, c);
      }
    } else if c !in m.blocks {
      var j := NewIndex(p, b, Chunks(b), c);
      ChunkApart(W, m, p, b, a, j);
    }
  }

  lemma NewApart(p: int, b: nat, i: nat, j: nat)
    requires At(p, b, i) < At(p, b, j)
    ensures At(p, b, i) + 2 * b + 1 <= At(p, b, j) - 1
  {
    if i < j { AtOrder(p, b, i, j); } else if j < i { AtOrder(p, b, j, i); }
  }

  lemma CarveLayout(W: nat, m: Store, mem: map<int, int>, p: int, b: nat)
    requires W > 0 && Ready(W, m, p) && b < BINS && Threaded(W, m.mem, mem, p, b, Chunks(b), m.bins[b])
    ensures Layout(W, WithChunks(m, mem, p, b))
  {
    var n := WithChunks(m, mem, p, b);
    hide WithChunks, Placed, SizeOf, Sound, Threaded, Vacant;
    forall a | a in n.blocks
      ensures Placed(W, n.mapped, a, n.blocks[a]) && a - 1 in n.mem && n.mem[a - 1] == SizeOf(W, n.blocks[a])
    {
      CarvePlaced(W, m, mem, p, b, a);
      SameRest(m, mem, p, b);
    }
    forall a, c | a in n.blocks && c in n.blocks && a < c ensures a + Span(W, n.blocks[a]) <= c - 1 {
      CarveApart(W, m, mem, p, b, a, c);
    }
  }

  lemma SameRest(m: Store, mem: map<int, int>, p: int, b: nat)
    requires b < |m.bins| && b < |m.lists|
    ensures var n := WithChunks(m, mem, p, b); n.mem == mem && n.mapped == m.mapped && n.live == m.live
  {
  }

  lemma CarveShelves(W: nat, m: Store, mem: map<int, int>, p: int, b: nat)
    requires W > 0 && Ready(W, m, p) && b < BINS
    ensures Shelves(WithChunks(m, mem, p, b))
  {
    var n, c := WithChunks(m, mem, p, b), Carved(p, b, Chunks(b));
    hide Carved, Chunks;
    forall a ensures (a in m.blocks ==> a in n.blocks && n.blocks[a] == m.blocks[a] && a !in c)
                  && (a in c ==> a in n.blocks && n.blocks[a] == Small(b, p) && a !in m.blocks)
                  && (a in n.blocks ==> a in m.blocks || a in c) {
      BlocksOf(W, m, mem, p, b, a);
    }
    CarvedNoDup(p, b, Chunks(b));
    ShelvesGrown(m, n, c, p, b);
  }

  lemma ShelvesGrown(m: Store, n: Store, c: seq<int>, p: int, b: nat)
    requires Shelves(m) && b < BINS && NoDup(c) && n.live == m.live && n.lists == m.lists[b := c + m.lists[b]]
    requires forall a :: a in m.blocks ==> a in n.blocks && n.blocks[a] == m.blocks[a] && a !in c
    requires forall a :: a in c ==> a in n.blocks && n.blocks[a] == Small(b, p) && a !in m.blocks
    requires forall a :: a in n.blocks ==> a in m.blocks || a in c
    ensures Shelves(n)
  {
    JoinNoDup(c, m.lists[b]);
    hide NoDup;
  }

  lemma JoinNoDup(a: seq<int>, b: seq<int>)
    requires NoDup(a) && NoDup(b) && forall x :: x in b ==> x !in a
    ensures NoDup(a + b)
  {
    forall i, j | 0 <= i < j < |a + b| ensures (a + b)[i] != (a + b)[j] {
      if i < |a| <= j { assert (a + b)[j] in b; }
    }
  }

  lemma OldListed(W: nat, m: Store, mem: map<int, int>, p: int, b: nat, d: nat, a: int)
    requires W > 0 && Ready(W, m, p) && b < BINS && Threaded(W, m.mem, mem, p, b, Chunks(b), m.bins[b])
    requires d < BINS && a in m.lists[d] && a in m.mem
    ensures a in mem && mem[a] == m.mem[a]
  {
    hide Chunks, At, Links;
    assert a in m.blocks;
    OldHeader(W, m, mem, p, b, a);
    SpanPositive(W, m, a);
  }

  lemma OldLinks(W: nat, m: Store, mem: map<int, int>, p: int, b: nat)
    requires W > 0 && Ready(W, m, p) && b < BINS && Threaded(W, m.mem, mem, p, b, Chunks(b), m.bins[b])
    ensures Links(m.(mem := mem))
  {
    hide Chunks, At, Threaded, Mappings, Layout, Shelves, Linked;
    forall d, a | 0 <= d < BINS && a in m.lists[d] && a in m.mem ensures a in mem && mem[a] == m.mem[a] {
      OldListed(W, m, mem, p, b, d, a);
    }
    LinksFrame(m, m.(mem := mem));
  }

  lemma CarveLinks(W: nat, m: Store, mem: map<int, int>, p: int, b: nat)
    requires W > 0 && Ready(W, m, p) && b < BINS && Threaded(W, m.mem, mem, p, b, Chunks(b), m.bins[b])
    ensures Links(WithChunks(m, mem, p, b))
  {
    OldLinks(W, m, mem, p, b);
    hide Linked, Threaded, Mappings, Layout, Shelves, Chunks, At, Carved, Vacant;
    var c, l := Carved(p, b, Chunks(b)), m.lists[b];
    ChunksPositive(b);
    AtNext(p, b, 0);
    FirstChunk(p, b, Chunks(b));
    assert Linked(mem, l) && m.bins[b] == Head(l);
    LinkedJoin(W, m.mem, mem, p, b, m.bins[b], l);
  }

  lemma FirstChunk(p: int, b: nat, n: nat)
    requires n > 0
    ensures Carved(p, b, n)[0] == At(p, b, 0)
  {
  }

  lemma LinkedJoin(W: nat, was: map<int, int>, mem: map<int, int>, p: int, b: nat, tl: int, l: seq<int>)
    requires Threaded(W, was, mem, p, b, Chunks(b), tl) && Linked(mem, l) && tl == Head(l)
    ensures Linked(mem, Carved(p, b, Chunks(b)) + l)
  {
    var c := Carved(p, b, Chunks(b));
    var s := c + l;
    hide At, Chunks;
    forall i | 0 <= i < |s| ensures s[i] in mem && mem[s[i]] == NextIn(s, i) {
      if i < |c| {
        var n := Chunks(b);
        assert s[i] == At(p, b, i);
        assert mem[At(p, b, i)] == NextAt(p, b, n, tl, i);
        if i + 1 < |c| { assert s[i + 1] == At(p, b, i + 1); } else if l != [] { assert s[i + 1] == l[0]; }
      } else {
        assert s[i] == l[i - |c|];
        assert mem[l[i - |c|]] == NextIn(l, i - |c|);
        if i + 1 < |s| { assert s[i + 1] == l[i - |c| + 1]; }
      }
    }
  }

  lemma CarveKept(W: nat, m: Store, mem: map<int, int>, p: int, b: nat)
    requires W > 0 && Ready(W, m, p) && b < BINS && Threaded(W, m.mem, mem, p, b, Chunks(b), m.bins[b])
    ensures Kept(W, m, WithChunks(m, mem, p, b))
  {
    var n := WithChunks(m, mem, p, b);
    forall a | a in m.live
      ensures a in m.blocks && a in n.blocks && m.blocks[a] == n.blocks[a]
      ensures forall k :: a <= k < a + Span(W, m.blocks[a]) ==> k in m.mem && k in mem && m.mem[k] == mem[k]
    {
      BlocksOf(W, m, mem, p, b, a);
      OldHeader(W, m, mem, p, b, a);
      forall k | a <= k < a + Span(W, m.blocks[a]) ensures k in m.mem { InMemory(W, m, a, k); }
    }
  }

  /** A vacant big block becomes chunks of bin b at the head of its list. */
  lemma CarveSound(W: nat, m: Store, mem: map<int, int>, p: int, b: nat)
    requires W > 0 && Ready(W, m, p) && b < BINS && Threaded(W, m.mem, mem, p, b, Chunks(b), m.bins[b])
    ensures Sound(W, WithChunks(m, mem, p, b)) && Kept(W, m, WithChunks(m, mem, p, b))
  {
    hide WithChunks, Mappings, Layout, Shelves, Links, Kept, Chunks, Vacant, Threaded;
    Lengths(m);
    MemKeys(W, m.mem, mem, p, b, m.bins[b]);
    CarveMappings(W, m, mem, p, b);
    CarveLayout(W, m, mem, p, b);
    CarveShelves(W, m, mem, p, b);
    CarveLinks(W, m, mem, p, b);
    CarveKept(W, m, mem, p, b);
  }

  lemma Lengths(m: Store)
    ensures Links(m) ==> |m.bins| == BINS && |m.lists| == BINS
  {
  }

  lemma MemKeys(W: nat, was: map<int, int>, mem: map<int, int>, p: int, b: nat, tl: int)
    requires Threaded(W, was, mem, p, b, Chunks(b), tl)
    ensures mem.Keys == was.Keys
  {
  }
}
