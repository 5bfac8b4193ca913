/** The heap of malloc.c. */
module MallocHeap {
  // What the managed memory must look like, and that every change keeps it so. Addresses are counted in words of
  // W bytes; 0 is the null pointer.

  import opened MallocSizes

  /** A chunk of bin b cut from the big block at region, or a mapping of its own for bytes bytes. */
  datatype Block = Small(bin: nat, region: int) | Large(bytes: nat)

  /**
   * mem holds one number per accessible word. The rest is known to the proof only: blocks gives every chunk by the
   * address handed out, live the ones in use, lists the free lists and mapped the mappings with their lengths in bytes.
   */
  datatype Store = Store(mem: map<int, int>, bins: seq<int>, blocks: map<int, Block>, live: set<int>,
                         lists: seq<seq<int>>, mapped: map<int, nat>)

  /** Usable bytes, as the header says. */
  function SizeOf(W: nat, k: Block): int {
    match k
    case Small(b, _) => Bin2Size(W, b)
    case Large(n) => n
  }

  /** Usable words. */
  function Span(W: nat, k: Block): nat
    requires W > 0
  {
    match k
    case Small(b, _) => 2 * b + 1
    case Large(n) => WordsFor(W, n)
  }

  // ---------------------------------------------------------------- the invariant

  /** Mappings are aligned, do not overlap and are accessible. */
  ghost predicate Mappings(W: nat, m: Store)
    requires W > 0
  {
    && (forall r :: r in m.mapped ==> r > 0 && r % 2 == 0 && m.mapped[r] > 0)
    && (forall r, q :: r in m.mapped && q in m.mapped && r < q ==> r + WordsFor(W, m.mapped[r]) <= q)
    && (forall r, k :: r in m.mapped && r <= k < r + WordsFor(W, m.mapped[r]) ==> k in m.mem)
  }

  /** The words of a block and its header lie in its mapping, and the block is aligned. */
  ghost predicate Placed(W: nat, mapped: map<int, nat>, a: int, k: Block)
    requires W > 0
  {
    && a % 2 == 0
    && match k
       case Small(b, r) => b < BINS && r in mapped && mapped[r] == BIG * W && r + 2 <= a && a + 2 * b + 1 <= r + BIG
       case Large(n) => n > Bin2Size(W, BINS - 1) && a - 2 in mapped && mapped[a - 2] == n + 2 * W
  }

  /** Blocks with their headers do not overlap, and headers hold sizes. */
  ghost predicate Layout(W: nat, m: Store)
    requires W > 0
  {
    && (forall a :: a in m.blocks ==> Placed(W, m.mapped, a, m.blocks[a]))
    && (forall a, c :: a in m.blocks && c in m.blocks && a < c ==> a + Span(W, m.blocks[a]) <= c - 1)
    && (forall a :: a in m.blocks ==> a - 1 in m.mem && m.mem[a - 1] == SizeOf(W, m.blocks[a]))
  }

  ghost predicate NoDup(s: seq<int>) {
    forall i, j :: 0 <= i < j < |s| ==> s[i] != s[j]
  }

  /** Every block is in use or else, if small, in the list of its bin, once. */
  ghost predicate Shelves(m: Store) {
    && |m.lists| == BINS
    && (forall b :: 0 <= b < BINS ==> NoDup(m.lists[b]))
    && (forall b, a :: 0 <= b < BINS ==>
          (a in m.lists[b] <==> a in m.blocks && a !in m.live && m.blocks[a].Small? && m.blocks[a].bin == b))
    && (forall a :: a in m.live ==> a in m.blocks)
    && (forall a :: a in m.blocks && m.blocks[a].Large? ==> a in m.live)
  }

  function Head(s: seq<int>): int {
    if s == [] then 0 else s[0]
  }

  function NextIn(s: seq<int>, i: nat): int {
    if i + 1 < |s| then s[i + 1] else 0
  }

  /** The first word of each block in the list is the address of the next one; the last is null. */
  ghost predicate Linked(mem: map<int, int>, s: seq<int>) {
    forall i :: 0 <= i < |s| ==> s[i] in mem && mem[s[i]] == NextIn(s, i)
  }

  ghost predicate Links(m: Store) {
    && |m.bins| == BINS && |m.lists| == BINS
    && forall b :: 0 <= b < BINS ==> m.bins[b] == Head(m.lists[b]) && Linked(m.mem, m.lists[b])
  }

  ghost predicate Sound(W: nat, m: Store)
    requires W > 0
  {
    Mappings(W, m) && Layout(W, m) && Shelves(m) && Links(m)
  }

  /** Whatever is in use in both is the same block with the same contents. */
  ghost predicate Kept(W: nat, m: Store, n: Store)
    requires W > 0
  {
    forall a :: a in m.live && a in n.live ==>
      && a in m.blocks && a in n.blocks && m.blocks[a] == n.blocks[a]
      && forall k :: a <= k < a + Span(W, m.blocks[a]) ==> k in m.mem && k in n.mem && m.mem[k] == n.mem[k]
  }

  // ---------------------------------------------------------------- what follows from the invariant

  lemma InMemory(W: nat, m: Store, a: int, k: int)
    requires W > 0 && Sound(W, m) && a in m.blocks && a - 1 <= k < a + Span(W, m.blocks[a])
    ensures k in m.mem
  {
    assert Placed(W, m.mapped, a, m.blocks[a]);
    match m.blocks[a]
    case Small(b, r) => BigWords(W, 0);
    case Large(n) => BigWords(W, n);
  }

  /** A word of one block is not a word of another. */
  lemma Apart(W: nat, m: Store, a: int, c: int, k: int)
    requires W > 0 && Sound(W, m) && a in m.blocks && c in m.blocks && a != c
    requires a - 1 <= k < a + Span(W, m.blocks[a])
    ensures k < c - 1 || k >= c + Span(W, m.blocks[c])
  {
  }

  lemma SpanPositive(W: nat, m: Store, a: int)
    requires W > 0 && Mappings(W, m) && a in m.blocks && Placed(W, m.mapped, a, m.blocks[a])
    ensures Span(W, m.blocks[a]) >= 1 && a > 1
  {
    match m.blocks[a]
    case Small(b, r) =>
    case Large(n) =>
      BinWords(W, BINS - 1);
      WordsEnough(W, n);
      LessFromProduct(0, WordsFor(W, n), W);
  }

  /** What a bin's list looks like: aligned free chunks of its size, each once, linked in order. */
  lemma FreeListShape(W: nat, m: Store, b: nat, i: nat)
    requires W > 0 && Sound(W, m) && b < BINS && i < |m.lists[b]|
    ensures var a := m.lists[b][i];
      && a in m.blocks && a !in m.live && a % 2 == 0
      && a - 1 in m.mem && m.mem[a - 1] == Bin2Size(W, b)
      && a in m.mem && m.mem[a] == NextIn(m.lists[b], i)
      && forall j :: 0 <= j < |m.lists[b]| && j != i ==> m.lists[b][j] != a
  {
    var a := m.lists[b][i];
    assert a in m.lists[b];
    assert Placed(W, m.mapped, a, m.blocks[a]) && Linked(m.mem, m.lists[b]) && NoDup(m.lists[b]);
  }

  // ---------------------------------------------------------------- taking from and giving to a free list

  /** malloc_small with a non-empty list. */
  ghost function Popped(m: Store, b: nat): Store
    requires b < |m.bins| && b < |m.lists| && m.lists[b] != [] && m.lists[b][0] in m.mem
  {
    var a := m.lists[b][0];
    m.(bins := m.bins[b := m.mem[a]], live := m.live + {a}, lists := m.lists[b := m.lists[b][1..]])
  }

  lemma HeadOf(W: nat, m: Store, b: nat)
    requires W > 0 && Sound(W, m) && b < BINS
    ensures m.bins[b] == 0 <==> m.lists[b] == []
    ensures m.lists[b] != [] ==> m.bins[b] == m.lists[b][0] && m.bins[b] in m.blocks && m.bins[b] !in m.live
    ensures m.lists[b] != [] ==> m.bins[b] in m.mem && m.blocks[m.bins[b]].Small? && m.blocks[m.bins[b]].bin == b
  {
    hide Mappings;
    assert Linked(m.mem, m.lists[b]);
    if m.lists[b] != [] {
      assert m.lists[b][0] in m.lists[b];
      ListAddress(W, m, b, 0);
    }
  }

  lemma ListAddress(W: nat, m: Store, b: nat, i: nat)
    requires W > 0 && Sound(W, m) && b < BINS && i < |m.lists[b]|
    ensures m.lists[b][i] > 1 && m.lists[b][i] in m.blocks
  {
    var a := m.lists[b][i];
    assert a in m.lists[b];
    SpanPositive(W, m, a);
  }

  lemma PopShelves(m: Store, b: nat)
    requires Shelves(m) && Links(m) && b < BINS && m.lists[b] != [] && m.lists[b][0] in m.mem
    ensures Shelves(Popped(m, b)) && Links(Popped(m, b))
  {
    var a, l := m.lists[b][0], m.lists[b];
    assert a in l;
    RestOf(l);
    RestLinked(m.mem, l);
    hide NoDup, Linked, Head;
    assert Shelves(Popped(m, b)) by { hide Links; }
  }

  /** A list without its first element. */
  lemma RestOf(l: seq<int>)
    requires l != [] && NoDup(l)
    ensures NoDup(l[1..]) && forall c :: c in l[1..] <==> c in l && c != l[0]
  {
    forall c | c in l && c != l[0] ensures c in l[1..] {
      var i :| 0 <= i < |l| && l[i] == c;
      assert l[1..][i - 1] == c;
    }
  }

  lemma RestLinked(mem: map<int, int>, l: seq<int>)
    requires l != [] && Linked(mem, l)
    ensures Linked(mem, l[1..]) && l[0] in mem && mem[l[0]] == Head(l[1..])
  {
    forall i | 0 <= i < |l[1..]| ensures l[1..][i] in mem && mem[l[1..][i]] == NextIn(l[1..], i) {
      assert l[1..][i] == l[i + 1] && NextIn(l[1..], i) == NextIn(l, i + 1);
    }
    assert mem[l[0]] == NextIn(l, 0);
  }

  /** Taking the first block of a list. */
  lemma PopSound(W: nat, m: Store, b: nat)
    requires W > 0 && Sound(W, m) && b < BINS && m.lists[b] != []
    ensures m.lists[b][0] in m.mem && Sound(W, Popped(m, b)) && Kept(W, m, Popped(m, b))
  {
    HeadOf(W, m, b);
    hide Mappings, Layout;
    PopShelves(m, b);
    KeptSame(W, m, Popped(m, b));
  }

  lemma KeptSame(W: nat, m: Store, n: Store)
    requires W > 0 && Sound(W, m) && n.mem == m.mem && n.blocks == m.blocks
    ensures Kept(W, m, n)
  {
    forall a, k | a in m.live && a in n.live && a <= k < a + Span(W, m.blocks[a]) ensures k in m.mem {
      InMemory(W, m, a, k);
    }
  }

  /** free_small */
  ghost function Pushed(m: Store, b: nat, a: int): Store
    requires b < |m.bins| && b < |m.lists|
  {
    m.(mem := m.mem[a := m.bins[b]], bins := m.bins[b := a], live := m.live - {a},
       lists := m.lists[b := [a] + m.lists[b]])
  }

  /** Changing words that are not the first of any listed block leaves the lists as they were. */
  lemma LinksFrame(m: Store, n: Store)
    requires Links(m) && n.bins == m.bins && n.lists == m.lists
    requires forall b, a :: 0 <= b < BINS && a in m.lists[b] && a in m.mem ==> a in n.mem && n.mem[a] == m.mem[a]
    ensures Links(n)
  {
    forall b | 0 <= b < BINS ensures Linked(n.mem, m.lists[b]) {
      assert Linked(m.mem, m.lists[b]);
      forall i | 0 <= i < |m.lists[b]| ensures m.lists[b][i] in n.mem && n.mem[m.lists[b][i]] == NextIn(m.lists[b], i) {
        var a := m.lists[b][i];
        assert a in m.mem && m.mem[a] == NextIn(m.lists[b], i);
        assert a in m.lists[b] && 0 <= b < BINS;
        assert a in n.mem && n.mem[a] == m.mem[a];
      }
    }
  }

  lemma PushShelves(m: Store, b: nat, a: int)
    requires Shelves(m) && Links(m) && b < BINS && a in m.live && m.blocks[a].Small? && m.blocks[a].bin == b
    ensures Shelves(Pushed(m, b, a)) && Links(Pushed(m, b, a))
  {
    var n, l := Pushed(m, b, a), m.lists[b];
    assert a !in l;
    MoreOf(a, l);
    LinksFrame(m, m.(mem := n.mem));
    MoreLinked(n.mem, a, l);
    hide NoDup, Linked, Head;
    assert Shelves(n) by { hide Links; }
  }

  /** A list with one more element at its front. */
  lemma MoreOf(a: int, l: seq<int>)
    requires a !in l && NoDup(l)
    ensures NoDup([a] + l) && forall c :: c in [a] + l <==> c == a || c in l
  {
    var l' := [a] + l;
    forall i, j | 0 <= i < j < |l'| ensures l'[i] != l'[j] {
      assert l'[j] in l;
    }
  }

  lemma MoreLinked(mem: map<int, int>, a: int, l: seq<int>)
    requires Linked(mem, l) && a in mem && mem[a] == Head(l)
    ensures Linked(mem, [a] + l)
  {
    var l' := [a] + l;
    forall i | 0 <= i < |l'| ensures l'[i] in mem && mem[l'[i]] == NextIn(l', i) {
      if i > 0 { assert l'[i] == l[i - 1] && NextIn(l', i) == NextIn(l, i - 1); }
    }
  }

  /** A change inside the words of one block leaves mappings, headers and other blocks alone. */
  lemma WriteLayout(W: nat, m: Store, a: int, k: int, x: int)
    requires W > 0 && Sound(W, m) && a in m.blocks && a <= k < a + Span(W, m.blocks[a])
    ensures k in m.mem && Mappings(W, m.(mem := m.mem[k := x])) && Layout(W, m.(mem := m.mem[k := x]))
    ensures forall c :: c in m.blocks && c != a ==> k < c - 1 || k >= c + Span(W, m.blocks[c])
  {
    InMemory(W, m, a, k);
    forall c | c in m.blocks ensures c - 1 != k {
      if c != a { Apart(W, m, a, c, k); }
    }
  }

  lemma PushSound(W: nat, m: Store, a: int)
    requires W > 0 && Sound(W, m) && a in m.live && m.blocks[a].Small?
    ensures var b := m.blocks[a].bin; b < BINS && Sound(W, Pushed(m, b, a)) && Kept(W, m, Pushed(m, b, a))
  {
    var b := m.blocks[a].bin;
    assert Placed(W, m.mapped, a, m.blocks[a]);
    WriteLayout(W, m, a, a, m.bins[b]);
    PushShelves(m, b, a);
    KeptWrite(W, m, Pushed(m, b, a), a, a, m.bins[b]);
  }

  lemma KeptWrite(W: nat, m: Store, n: Store, a: int, k: int, x: int)
    requires W > 0 && Sound(W, m) && a in m.blocks && a <= k < a + Span(W, m.blocks[a])
    requires n.mem == m.mem[k := x] && n.blocks == m.blocks && a !in n.live
    ensures Kept(W, m, n)
  {
    forall c, j | c in m.live && c in n.live && c <= j < c + Span(W, m.blocks[c]) ensures j in m.mem && j != k {
      InMemory(W, m, c, j);
      Apart(W, m, a, c, k);
    }
  }

  /** The owner of a block writes into it; all else is kept. */
  lemma OwnerWrite(W: nat, m: Store, a: int, k: int, x: int)
    requires W > 0 && Sound(W, m) && a in m.live && a <= k < a + Span(W, m.blocks[a])
    ensures k in m.mem && Sound(W, m.(mem := m.mem[k := x]))
    ensures Kept(W, m, m.(mem := m.mem[k := x], live := m.live - {a}))
  {
    var n := m.(mem := m.mem[k := x]);
    hide Mappings, Layout, Kept;
    forall b, c | 0 <= b < BINS && c in m.lists[b] ensures c != k {
      ListedElsewhere(W, m, a, k, b, c);
    }
    LinksFrame(m, n);
    hide Links;
    assert a in m.blocks;
    hide Shelves;
    ShelvesSame(m, n);
    WriteLayout(W, m, a, k, x);
    KeptWrite(W, m, n.(live := m.live - {a}), a, k, x);
  }

  lemma ListedElsewhere(W: nat, m: Store, a: int, k: int, b: nat, c: int)
    requires W > 0 && Sound(W, m) && a in m.live && a <= k < a + Span(W, m.blocks[a]) && b < BINS && c in m.lists[b]
    ensures c != k
  {
    hide Links;
    assert c in m.blocks && c !in m.live;
    SpanPositive(W, m, c);
    Apart(W, m, a, c, k);
  }

  // ---------------------------------------------------------------- mappings

  /** What mmap0 answers: null, or the aligned start of words not accessible before, with some contents. */
  datatype Mapping = Refused | Granted(p: int, fill: map<int, int>)

  ghost predicate Fresh(W: nat, m: Store, g: Mapping, len: nat)
    requires W > 0
  {
    g.Granted? ==>
      && g.p > 0 && g.p % 2 == 0
      && g.fill.Keys !! m.mem.Keys
      && forall k :: k in g.fill <==> g.p <= k < g.p + WordsFor(W, len)
  }

  ghost function Extended(m: Store, g: Mapping, len: nat): Store
    requires g.Granted?
  {
    m.(mem := m.mem + g.fill, mapped := m.mapped[g.p := len])
  }

  lemma NotEmpty(W: nat, n: nat)
    requires W > 0 && n > 0
    ensures WordsFor(W, n) > 0
  {
    WordsEnough(W, n);
    LessFromProduct(0, WordsFor(W, n), W);
  }

  /** A new mapping is apart from all others. */
  lemma NewMapping(W: nat, m: Store, g: Mapping, len: nat)
    requires W > 0 && Mappings(W, m) && g.Granted? && Fresh(W, m, g, len) && len > 0
    ensures g.p !in m.mapped && Mappings(W, Extended(m, g, len))
  {
    NotEmpty(W, len);
    forall r | r in m.mapped
      ensures r != g.p && (r < g.p ==> r + WordsFor(W, m.mapped[r]) <= g.p) && (g.p < r ==> g.p + WordsFor(W, len) <= r)
    {
      NotEmpty(W, m.mapped[r]);
      assert r in m.mem;
      assert g.p in g.fill;
    }
  }

  lemma ExtendLayout(W: nat, m: Store, g: Mapping, len: nat)
    requires W > 0 && Layout(W, m) && g.Granted? && Fresh(W, m, g, len) && g.p !in m.mapped
    ensures Layout(W, Extended(m, g, len))
  {
    var n := Extended(m, g, len);
    forall a | a in n.blocks ensures Placed(W, n.mapped, a, n.blocks[a]) && n.mem[a - 1] == SizeOf(W, n.blocks[a]) {
      assert Placed(W, m.mapped, a, m.blocks[a]);
      assert a - 1 in m.mem;
    }
  }

  lemma ExtendSound(W: nat, m: Store, g: Mapping, len: nat)
    requires W > 0 && Sound(W, m) && g.Granted? && Fresh(W, m, g, len) && len > 0
    ensures Sound(W, Extended(m, g, len)) && Kept(W, m, Extended(m, g, len))
    ensures g.p !in m.mapped
  {
    var n := Extended(m, g, len);
    FillIsNew(W, m, g, len);
    hide Mappings, Layout, Kept, Links, Shelves, Fresh;
    NewMapping(W, m, g, len);
    KeptGrown(W, m, n);
    ExtendLayout(W, m, g, len);
    ExtendLinks(W, m, g, len);
    ShelvesSame(m, n);
  }

  lemma FillIsNew(W: nat, m: Store, g: Mapping, len: nat)
    requires W > 0 && g.Granted? && Fresh(W, m, g, len)
    ensures forall k :: k in m.mem ==> k in Extended(m, g, len).mem && Extended(m, g, len).mem[k] == m.mem[k]
  {
  }

  lemma ShelvesSame(m: Store, n: Store)
    requires Shelves(m) && n.blocks == m.blocks && n.live == m.live && n.lists == m.lists
    ensures Shelves(n)
  {
  }

  lemma ExtendLinks(W: nat, m: Store, g: Mapping, len: nat)
    requires W > 0 && Links(m) && g.Granted? && Fresh(W, m, g, len)
    ensures Links(Extended(m, g, len))
  {
    var n := Extended(m, g, len);
    forall a | a in m.mem ensures a in n.mem && n.mem[a] == m.mem[a] {
      assert a !in g.fill;
    }
    hide Fresh, Links;
    LinksFrame(m, n);
  }

  lemma KeptGrown(W: nat, m: Store, n: Store)
    requires W > 0 && Sound(W, m) && n.blocks == m.blocks
    requires forall k :: k in m.mem ==> k in n.mem && n.mem[k] == m.mem[k]
    ensures Kept(W, m, n)
  {
    forall a, k | a in m.live && a in n.live && a <= k < a + Span(W, m.blocks[a]) ensures k in m.mem {
      InMemory(W, m, a, k);
    }
  }

  /** No block is in the mapping at p. */
  ghost predicate Vacant(m: Store, p: int) {
    forall a :: a in m.blocks ==> (match m.blocks[a] case Small(_, r) => r != p case Large(_) => a - 2 != p)
  }

  lemma FreshIsVacant(W: nat, m: Store, p: int)
    requires W > 0 && Layout(W, m) && p !in m.mapped
    ensures Vacant(m, p)
  {
    forall a | a in m.blocks ensures match m.blocks[a] case Small(_, r) => r != p case Large(_) => a - 2 != p {
      assert Placed(W, m.mapped, a, m.blocks[a]);
    }
  }

  /** Blocks elsewhere do not reach into a vacant mapping. */
  lemma ClearOf(W: nat, m: Store, p: int, a: int)
    requires W > 0 && Mappings(W, m) && Layout(W, m) && p in m.mapped && Vacant(m, p) && a in m.blocks
    ensures a + Span(W, m.blocks[a]) <= p || p + WordsFor(W, m.mapped[p]) <= a - 1
  {
    assert Placed(W, m.mapped, a, m.blocks[a]);
    match m.blocks[a]
    case Small(b, r) => BigWords(W, 0);
    case Large(n) => BigWords(W, n);
  }

  // ---------------------------------------------------------------- blocks with a mapping of their own

  /** The end of malloc_large. */
  ghost function WithLarge(m: Store, p: int, n: nat): Store {
    m.(mem := m.mem[p + 1 := n], blocks := m.blocks[p + 2 := Large(n)], live := m.live + {p + 2})
  }

  /** Blocks and headers do not reach into a vacant mapping. */
  lemma LargeClear(W: nat, m: Store, p: int, n: nat)
    requires W > 0 && Mappings(W, m) && Layout(W, m) && Vacant(m, p) && p in m.mapped && m.mapped[p] == n + 2 * W
    ensures p + 1 in m.mem && p + 2 !in m.blocks && p % 2 == 0
    ensures forall a :: a in m.blocks ==> a + Span(W, m.blocks[a]) <= p || p + 2 + WordsFor(W, n) <= a - 1
    ensures forall a :: a in m.blocks ==> p + 1 < a - 1 || p + 1 >= a + Span(W, m.blocks[a])
  {
    BigWords(W, n);
    forall a | a in m.blocks
      ensures Span(W, m.blocks[a]) >= 1 && (a + Span(W, m.blocks[a]) <= p || p + 2 + WordsFor(W, n) <= a - 1)
    {
      SpanPositive(W, m, a);
      ClearOf(W, m, p, a);
    }
  }

  lemma LargeLayout(W: nat, m: Store, p: int, n: nat)
    requires W > 0 && Mappings(W, m) && Layout(W, m) && Vacant(m, p) && p in m.mapped && m.mapped[p] == n + 2 * W
    requires n > Bin2Size(W, BINS - 1)
    ensures p + 1 in m.mem && p + 2 !in m.blocks
    ensures Mappings(W, WithLarge(m, p, n)) && Layout(W, WithLarge(m, p, n))
    ensures forall a :: a in m.blocks ==> p + 1 < a - 1 || p + 1 >= a + Span(W, m.blocks[a])
  {
    hide Vacant;
    LargeClear(W, m, p, n);
    assert Mappings(W, WithLarge(m, p, n)) by { hide Layout; }
    hide Mappings;
    assert Placed(W, m.mapped, p + 2, Large(n));
    hide Placed;
  }

  lemma LargeLinks(W: nat, m: Store, p: int, n: nat)
    requires W > 0 && Sound(W, m)
    requires forall a :: a in m.blocks ==> p + 1 < a - 1 || p + 1 >= a + Span(W, m.blocks[a])
    ensures Links(WithLarge(m, p, n))
  {
    hide Links;
    forall b, c | 0 <= b < BINS && c in m.lists[b] ensures c != p + 1 {
      assert c in m.blocks;
      SpanPositive(W, m, c);
    }
    hide Mappings, Layout, Shelves;
    LinksFrame(m, WithLarge(m, p, n));
  }

  lemma LargeSound(W: nat, m: Store, p: int, n: nat)
    requires W > 0 && Sound(W, m) && Vacant(m, p) && p in m.mapped && m.mapped[p] == n + 2 * W
    requires n > Bin2Size(W, BINS - 1)
    ensures Sound(W, WithLarge(m, p, n)) && Kept(W, m, WithLarge(m, p, n)) && p + 1 in m.mem && p + 2 !in m.blocks
  {
    hide Mappings, Layout, Kept, Placed, Links, Shelves;
    LargeLayout(W, m, p, n);
    LargeKept(W, m, p, n);
    LargeLinks(W, m, p, n);
    LargeShelves(m, p, n);
  }

  lemma LargeShelves(m: Store, p: int, n: nat)
    requires Shelves(m) && p + 2 !in m.blocks
    ensures Shelves(WithLarge(m, p, n))
  {
  }

  lemma LargeKept(W: nat, m: Store, p: int, n: nat)
    requires W > 0 && Sound(W, m) && p + 2 !in m.blocks
    requires forall a :: a in m.blocks ==> p + 1 < a - 1 || p + 1 >= a + Span(W, m.blocks[a])
    ensures Kept(W, m, WithLarge(m, p, n))
  {
    forall a, k | a in m.live && a <= k < a + Span(W, m.blocks[a]) ensures k in m.mem && k != p + 1 {
      InMemory(W, m, a, k);
    }
  }

  /** munmap of exactly the mapping of a large block. */
  ghost function Unmapped(W: nat, m: Store, a: int): Store
    requires W > 0
  {
    var len := if a - 2 in m.mapped then m.mapped[a - 2] else 0;
    m.(mem := map k | k in m.mem && !(a - 2 <= k < a - 2 + WordsFor(W, len)) :: m.mem[k],
       blocks := m.blocks - {a}, live := m.live - {a}, mapped := m.mapped - {a - 2})
  }

  /** Another block does not share the mapping of a large one, and does not reach into it. */
  lemma OtherMapping(W: nat, m: Store, a: int, c: int)
    requires W > 0 && Mappings(W, m) && Layout(W, m) && a in m.blocks && m.blocks[a].Large? && c in m.blocks && c != a
    ensures a - 2 in m.mapped && Placed(W, m.mapped - {a - 2}, c, m.blocks[c])
    ensures c + Span(W, m.blocks[c]) <= a - 2 || a - 2 + WordsFor(W, m.mapped[a - 2]) <= c - 1
  {
    var n := m.blocks[a].bytes;
    assert Placed(W, m.mapped, a, m.blocks[a]) && Placed(W, m.mapped, c, m.blocks[c]);
    BigWords(W, n);
    SpanPositive(W, m, c);
    match m.blocks[c]
    case Small(b, r) =>
      BigWords(W, 0);
    case Large(l) =>
      BigWords(W, l);
  }

  lemma UnmapLayout(W: nat, m: Store, a: int)
    requires W > 0 && Mappings(W, m) && Layout(W, m) && a in m.blocks && m.blocks[a].Large?
    ensures Mappings(W, Unmapped(W, m, a)) && Layout(W, Unmapped(W, m, a))
  {
    var n := Unmapped(W, m, a);
    assert Placed(W, m.mapped, a, m.blocks[a]);
    forall c | c in n.blocks
      ensures Placed(W, n.mapped, c, n.blocks[c]) && c - 1 in n.mem && n.mem[c - 1] == m.mem[c - 1]
    {
      OtherMapping(W, m, a, c);
      SpanPositive(W, m, c);
    }
    assert Mappings(W, n);
  }

  /** A word of another block stays accessible. */
  lemma OtherWord(W: nat, m: Store, a: int, c: int, k: int)
    requires W > 0 && Sound(W, m) && a in m.blocks && m.blocks[a].Large? && c in m.blocks && c != a
    requires c - 1 <= k < c + Span(W, m.blocks[c])
    ensures k in m.mem && k in Unmapped(W, m, a).mem
  {
    InMemory(W, m, c, k);
    OtherMapping(W, m, a, c);
  }

  lemma UnmapKept(W: nat, m: Store, a: int)
    requires W > 0 && Sound(W, m) && a in m.blocks && m.blocks[a].Large?
    ensures Kept(W, m, Unmapped(W, m, a))
  {
    forall c, k | c in m.live && c != a && c <= k < c + Span(W, m.blocks[c])
      ensures k in m.mem && k in Unmapped(W, m, a).mem
    {
      OtherWord(W, m, a, c, k);
    }
  }

  lemma UnmapLinks(W: nat, m: Store, a: int)
    requires W > 0 && Sound(W, m) && a in m.live && m.blocks[a].Large?
    ensures Links(Unmapped(W, m, a))
  {
    var n := Unmapped(W, m, a);
    forall b, c | 0 <= b < BINS && c in m.lists[b] ensures c in n.mem && n.mem[c] == m.mem[c] {
      UnmapListed(W, m, a, b, c);
    }
    hide Mappings, Layout, Placed, Shelves, Sound;
    LinksFrame(m, n);
  }

  lemma UnmapListed(W: nat, m: Store, a: int, b: nat, c: int)
    requires W > 0 && Sound(W, m) && a in m.live && m.blocks[a].Large? && b < BINS && c in m.lists[b]
    ensures c in m.mem && c in Unmapped(W, m, a).mem
  {
    hide Links;
    assert c in m.blocks && c !in m.live;
    SpanPositive(W, m, c);
    OtherWord(W, m, a, c, c);
  }

  lemma UnmapShelves(W: nat, m: Store, a: int)
    requires W > 0 && Shelves(m) && a in m.live && m.blocks[a].Large?
    ensures Shelves(Unmapped(W, m, a))
  {
  }

  lemma UnmapSound(W: nat, m: Store, a: int)
    requires W > 0 && Sound(W, m) && a in m.live && m.blocks[a].Large?
    ensures Sound(W, Unmapped(W, m, a)) && Kept(W, m, Unmapped(W, m, a))
  {
    assert a in m.blocks;
    UnmapLayout(W, m, a);
    UnmapKept(W, m, a);
    UnmapLinks(W, m, a);
    UnmapShelves(W, m, a);
  }
}
