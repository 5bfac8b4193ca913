/** The code of malloc.c. */
module MallocCode {
  // malloc and free of progs/memmgr/malloc.c over a memory of words.

  import Limbs
  import opened MallocSizes
  import opened MallocHeap
  import opened MallocCarve

  const INT_MAX: int := 0x7fff_ffff

  // ---------------------------------------------------------------- the loop of list_from_block

  /** The first j chunks are done. */
  ghost predicate Part(W: nat, was: map<int, int>, mem: map<int, int>, p: int, b: nat, j: nat) {
    && mem.Keys == was.Keys
    && (forall k :: k in was && !(p <= k < p + BIG) ==> mem[k] == was[k])
    && (forall i :: 0 <= i < j ==>
          && At(p, b, i) in mem && At(p, b, i) - 1 in mem
          && mem[At(p, b, i) - 1] == Bin2Size(W, b) && mem[At(p, b, i)] == Following(p, b, i))
  }

  function Following(p: int, b: nat, i: nat): int {
    At(p, b, i) + (2 * b + 2)
  }

  /** Every word of the big block is accessible. */
  ghost predicate Accessible(mem: map<int, int>, p: int) {
    forall k :: p <= k < p + BIG ==> k in mem
  }

  lemma PartNext(W: nat, was: map<int, int>, mem: map<int, int>, p: int, b: nat, j: nat, q: int)
    requires Part(W, was, mem, p, b, j) && j < Chunks(b) && p % 2 == 0 && Accessible(was, p) && q == At(p, b, j) - 1
    ensures q in mem && q + 1 in mem
    ensures Part(W, was, mem[q := Bin2Size(W, b)][q + 1 := q + 1 + (2 * b + 2)], p, b, j + 1)
  {
    AtInside(p, b, j);
    hide Chunks, At, Bin2Size;
    forall i | 0 <= i < j ensures At(p, b, i) < q && At(p, b, i) - 1 < q { AtOrder(p, b, i, j); }
  }

  lemma PartLast(W: nat, was: map<int, int>, mem: map<int, int>, p: int, b: nat, tl: int, q: int)
    requires Chunks(b) >= 1 && Part(W, was, mem, p, b, Chunks(b) - 1) && p % 2 == 0 && Accessible(was, p)
    requires q == At(p, b, Chunks(b) - 1) - 1
    ensures q in mem && q + 1 in mem
    ensures Threaded(W, was, mem[q := Bin2Size(W, b)][q + 1 := tl], p, b, Chunks(b), tl)
  {
    var n := Chunks(b);
    AtInside(p, b, n - 1);
    hide Chunks, At, Bin2Size;
    forall i | 0 <= i < n - 1
      ensures At(p, b, i) < q && At(p, b, i) - 1 < q && Following(p, b, i) == NextAt(p, b, n, tl, i)
    {
      AtOrder(p, b, i, n - 1);
      AtNext(p, b, i);
    }
  }

  lemma PartStart(W: nat, mem: map<int, int>, p: int, b: nat)
    ensures Part(W, mem, mem, p, b, 0)
  {
  }

  /** The word sizes that occur in pointer arithmetic. */
  lemma WordSteps(W: nat, b: nat)
    requires W > 0
    ensures (W * ALIGN - W) / W == 1 && (W * ALIGN - W + W) / W == 2 && (Bin2Size(W, b) + W) / W == 2 * b + 2
  {
    BinWords(W, b);
    Limbs.RemainderIs(W * ALIGN - W, W, 1, 0);
    Limbs.RemainderIs(W * ALIGN - W + W, W, 2, 0);
  }

  // ---------------------------------------------------------------- answers of the operating system

  /** A supply of answers to calls of mmap0 for big blocks: what is granted is new and never granted twice. */
  ghost predicate Supply(W: nat, m: Store, answers: nat -> Mapping, from: nat)
    requires W > 0
  {
    && (forall i: nat :: i >= from ==> Fresh(W, m, answers(i), BIG * W))
    && (forall i: nat, j: nat :: from <= i < j && answers(i).Granted? && answers(j).Granted? ==>
          answers(i).fill.Keys !! answers(j).fill.Keys)
  }

  lemma SupplyNext(W: nat, m: Store, n: Store, answers: nat -> Mapping, from: nat)
    requires W > 0 && Supply(W, m, answers, from) && answers(from).Granted?
    requires n.mem.Keys == m.mem.Keys + answers(from).fill.Keys
    ensures Supply(W, n, answers, from + 1)
  {
    forall i: nat | i >= from + 1 ensures Fresh(W, n, answers(i), BIG * W) {
      assert Fresh(W, m, answers(i), BIG * W);
    }
  }

  /** No mapping is longer than a size_t can say. */
  ghost predicate LengthsFit(sizes: nat, mapped: map<int, nat>) {
    forall a :: a in mapped ==> mapped[a] < sizes
  }

  // ---------------------------------------------------------------- the allocator

  class Allocator {
    /** The bytes of a word, and how many values size_t has. */
    const W: nat
    const SIZES: nat
    const bin: array<int>
    var mem: map<int, int>
    ghost var blocks: map<int, Block>
    ghost var live: set<int>
    ghost var lists: seq<seq<int>>
    ghost var mapped: map<int, nat>

    ghost function Whole(): Store
      reads this, bin
    {
      Store(mem, bin[..], blocks, live, lists, mapped)
    }

    ghost predicate Fits() {
      W > 0 && BIG * W < SIZES && bin.Length == BINS
    }

    ghost predicate Valid()
      reads this, bin
    {
      Fits() && Sound(W, Whole()) && LengthsFit(SIZES, mapped)
    }

    /** The proof's part of the state. */
    ghost method Become(n: Store)
      requires n.mem == mem && n.bins == bin[..]
      modifies this`blocks, this`live, this`lists, this`mapped
      ensures Whole() == n
    {
      blocks, live, lists, mapped := n.blocks, n.live, n.lists, n.mapped;
    }

    /** Nothing allocated; all lists empty. */
    constructor (W: nat, sizes: nat)
      requires W > 0 && BIG * W < sizes
      ensures Valid() && live == {} && this.W == W && SIZES == sizes && fresh(bin) && mem == map[] && mapped == map[]
    {
      this.W := W;
      SIZES := sizes;
      bin := new int[BINS](_ => 0);
      mem := map[];
      blocks, live, mapped := map[], {}, map[];
      lists := seq(BINS, _ => []);
      new;
      EmptySound(W, Whole());
    }

    /** mmap0: the answer comes from the operating system. */
    method Mmap0(len: nat, g: Mapping) returns (p: int)
      requires Valid() && 0 < len < SIZES && Fresh(W, Whole(), g, len)
      modifies this`mem, this`mapped
      ensures Valid() && Kept(W, old(Whole()), Whole())
      ensures g.Refused? ==> p == 0 && Whole() == old(Whole())
      ensures g.Granted? ==>
        p == g.p && p > 0 && p % 2 == 0 && Whole() == Extended(old(Whole()), g, len) && Vacant(Whole(), p)
    {
      hide Sound, Fresh, Vacant, Kept;
      match g
      case Refused =>
        p := 0;
        KeptSame(W, Whole(), Whole());
      case Granted(at, fill) =>
        p := at;
        GrantedPositive(W, Whole(), g, len);
        ExtendSound(W, Whole(), g, len);
        NotMappedVacant(W, Whole(), g, len);
        mem := mem + fill;
        mapped := mapped[at := len];
    }

    /** list_from_block; b says which bin s belongs to. */
    method ListFromBlock(s: int, p: int, tl: int, ghost b: nat) returns (first: int)
      requires Fits() && b < BINS && s == Bin2Size(W, b) && p % 2 == 0 && Accessible(mem, p)
      modifies this`mem
      ensures first == p + 2 && Threaded(W, old(mem), mem, p, b, Chunks(b), tl)
    {
      hide Part, Accessible, Threaded, Chunks, At;
      WordSteps(W, b);
      ChunkCount(W, b);
      ghost var was := mem;
      var waste := W * ALIGN - W;
      var nblocks := (BIG * W - waste) / (s + W);
      NblocksIs(W, b, nblocks);
      var q := p + waste / W;
      var j := 0;
      PartStart(W, mem, p, b);
      AtNext(p, b, 0);
      while j != nblocks - 1
        invariant 0 <= j <= nblocks - 1 && q == At(p, b, j) - 1 && Part(W, was, mem, p, b, j)
        decreases nblocks - j
      {
        PartNext(W, was, mem, p, b, j, q);
        AtNext(p, b, j);
        mem := mem[q := s];
        mem := mem[q + 1 := q + 1 + (s + W) / W];
        q := q + (s + W) / W;
        j := j + 1;
      }
      PartLast(W, was, mem, p, b, tl, q);
      mem := mem[q := s];
      mem := mem[q + 1 := tl];
      first := p + (waste + W) / W;
    }

    /** pre_fill: the big block at p becomes chunks for requests of n bytes. */
    method PreFill(n: nat, p: int)
      requires Valid() && n <= Bin2Size(W, BINS - 1) && Ready(W, Whole(), p)
      modifies this, bin
      ensures Valid() && Kept(W, old(Whole()), Whole())
      ensures 0 <= Size2Bin(W, n) < BINS && |old(lists)| == BINS
      ensures var b := Size2Bin(W, n); lists == old(lists)[b := Carved(p, b, Chunks(b)) + old(lists)[b]]
      ensures live == old(live) && mapped == old(mapped) && mem.Keys == old(mem.Keys)
    {
      hide Sound, Threaded, Chunks, Carved, Kept, Vacant;
      SizeFits(W, n);
      ghost var m := Whole();
      var b := Size2Bin(W, n);
      BlockAccessible(W, m, p);
      Lists50(W, m);
      var first := ListFromBlock(Bin2Size(W, b), p, bin[b], b);
      MemKeys(W, m.mem, mem, p, b, m.bins[b]);
      CarveSound(W, m, mem, p, b);
      bin[b] := first;
      Become(WithChunks(m, mem, p, b));
    }

    /** try_pre_fill: how many chunks for n bytes have been added, at least req if memory lasts. */
    method TryPreFill(n: nat, req: int, answers: nat -> Mapping) returns (ful: int)
      requires Valid() && Supply(W, Whole(), answers, 0)
      modifies this, bin
      ensures Valid() && Kept(W, old(Whole()), Whole()) && live == old(live)
      ensures |lists| == BINS && |old(lists)| == BINS
      ensures n > Bin2Size(W, BINS - 1) ==> ful == 0 && Whole() == old(Whole())
      ensures n <= Bin2Size(W, BINS - 1) ==> 0 <= Size2Bin(W, n) < BINS
      ensures n <= Bin2Size(W, BINS - 1) ==>
        0 <= ful <= INT_MAX && Added(old(lists), lists, Size2Bin(W, n), ful)
      ensures n <= Bin2Size(W, BINS - 1) && ful < req ==>
        INT_MAX - ful < Chunks(Size2Bin(W, n)) || RefusedAfter(answers, ful, Chunks(Size2Bin(W, n)))
      ensures n <= Bin2Size(W, BINS - 1) && ful > 0 ==> ful - Chunks(Size2Bin(W, n)) < req
    {
      hide Sound, Chunks, Carved, Kept, Vacant, Supply, Fresh, Rounds, RefusedAfter, Added;
      Lists50(W, Whole());
      KeptSame(W, Whole(), Whole());
      if Bin2Size(W, BINS - 1) < n {
        return 0;
      }
      SizeFits(W, n);
      var b := Size2Bin(W, n);
      ful := 0;
      BigPositive(W);
      AddedNone(lists, b);
      NblocksIs(W, b, (BIG * W - (W * ALIGN - W)) / (Bin2Size(W, b) + W));
      var chunks := (BIG * W - (W * ALIGN - W)) / (Bin2Size(W, b) + W);
      ghost var m := Whole();
      var used := 0;
      RoundsNone(chunks, req);
      while 0 < req - ful
        invariant Valid() && Kept(W, m, Whole()) && live == m.live && |lists| == BINS
        invariant 0 <= ful <= INT_MAX && Added(m.lists, lists, b, ful)
        invariant used >= 0 && Supply(W, Whole(), answers, used)
        invariant Rounds(ful, chunks, used, req)
        decreases INT_MAX - ful
      {
        RoundsEnd(ful, chunks, used, req);
        if INT_MAX - ful < chunks {
          return ful;
        }
        ghost var before := Whole();
        SupplyFresh(W, before, answers, used);
        var p := Mmap0(BIG * W, answers(used));
        if p == 0 {
          RefusedIs(answers, ful, chunks, used, req);
          return ful;
        }
        ghost var with := Whole();
        SupplyNext(W, before, with, answers, used);
        RoundsNext(ful, chunks, used, req);
        used := used + 1;
        PreFill(n, p);
        KeptTwice(W, before, with, Whole());
        KeptTwice(W, m, before, Whole());
        SupplySame(W, with, Whole(), answers, used);
        AddedShape(m.lists, with.lists, b, ful);
        AddedMore(m.lists, with.lists, lists, b, ful, Carved(p, b, chunks));
        ful := ful + chunks;
      }
      RoundsEnd(ful, chunks, used, req);
    }

    /** fill_bin: a list of chunks for bin b from a new big block; the bin itself is not changed yet. */
    method FillBin(b: nat, g: Mapping) returns (first: int)
      requires Valid() && b < BINS && Fresh(W, Whole(), g, BIG * W) && bin[b] == 0
      modifies this`mem, this`mapped
      ensures g.Refused? ==> first == 0 && Whole() == old(Whole())
      ensures g.Granted? ==>
        var m := Extended(old(Whole()), g, BIG * W);
        && Ready(W, m, g.p) && Threaded(W, m.mem, mem, g.p, b, Chunks(b), 0)
        && first == g.p + 2 && first > 0 && Whole() == m.(mem := mem) && Kept(W, old(Whole()), m)
    {
      hide Sound, Threaded, Chunks, Kept, Vacant, Fresh;
      var s := Bin2Size(W, b);
      BigPositive(W);
      var p := Mmap0(BIG * W, g);
      if p == 0 {
        return 0;
      }
      BlockAccessible(W, Whole(), p);
      first := ListFromBlock(s, p, 0, b);
    }

    /** malloc_small */
    method MallocSmall(nbytes: nat, g: Mapping) returns (p: int)
      requires Valid() && nbytes <= Bin2Size(W, BINS - 1) && Fresh(W, Whole(), g, BIG * W)
      modifies this, bin
      ensures Valid() && Kept(W, old(Whole()), Whole())
      ensures p == 0 ==> Whole() == old(Whole()) && g.Refused?
      ensures p != 0 ==> NewBlock(W, old(Whole()), Whole(), p, nbytes)
      ensures 0 <= Size2Bin(W, nbytes) < BINS && |old(lists)| == BINS
      ensures var b := Size2Bin(W, nbytes); old(lists)[b] != [] ==> p != 0 && p == old(lists)[b][0]
    {
      hide Sound, Threaded, Chunks, Carved, Kept, Vacant, Fresh;
      SizeFits(W, nbytes);
      var b := Size2Bin(W, nbytes);
      ghost var m := Whole();
      Lists50(W, m);
      HeadOf(W, m, b);
      p := bin[b];
      ghost var full := m;
      if p == 0 {
        p := FillBin(b, g);
        if p == 0 {
          KeptSame(W, m, m);
          return 0;
        }
        ghost var e := Extended(m, g, BIG * W);
        MemKeys(W, e.mem, mem, g.p, b, 0);
        CarveSound(W, e, mem, g.p, b);
        full := WithChunks(e, mem, g.p, b);
        CarvedHead(e, mem, g.p, b);
        KeptTwice(W, m, e, full);
        bin[b] := p;
        Become(full);
      } else {
        KeptSame(W, m, m);
      }
      HeadOf(W, full, b);
      PopSound(W, full, b);
      PopIsNew(W, m, full, b, nbytes);
      KeptPop(W, m, full, b);
      var q := mem[p];
      bin[b] := q;
      Become(Popped(full, b));
    }

    /** malloc_large */
    method MallocLarge(nbytes: nat, g: Mapping) returns (p: int)
      requires Valid() && nbytes > Bin2Size(W, BINS - 1) && nbytes + 2 * W < SIZES
      requires Fresh(W, Whole(), g, nbytes + 2 * W)
      modifies this, bin
      ensures Valid() && Kept(W, old(Whole()), Whole())
      ensures p == 0 ==> Whole() == old(Whole()) && g.Refused?
      ensures p != 0 ==> NewBlock(W, old(Whole()), Whole(), p, nbytes)
    {
      hide Sound, Kept, Vacant, Fresh;
      WordSteps(W, 0);
      ghost var m := Whole();
      KeptSame(W, m, m);
      LargeRequestWraps(W, nbytes, SIZES);
      assert nbytes + (W * ALIGN - W) + W == nbytes + 2 * W;
      p := Mmap0((nbytes + (W * ALIGN - W) + W) % SIZES, g);
      if p == 0 {
        return 0;
      }
      ghost var e := Whole();
      LargeSound(W, e, p, nbytes);
      KeptTwice(W, m, e, WithLarge(e, p, nbytes));
      LargeIsNew(W, m, e, p, nbytes);
      var waste := W * ALIGN - W;
      mem := mem[p + waste / W := nbytes];
      Become(WithLarge(e, p, nbytes));
      p := p + (waste + W) / W;
    }

    /** malloc: null, or a new aligned block of at least nbytes bytes, everything in use being kept. */
    method Malloc(nbytes: nat, g: Mapping) returns (p: int)
      requires Valid() && nbytes + 2 * W < SIZES
      requires Fresh(W, Whole(), g, if nbytes > Bin2Size(W, BINS - 1) then nbytes + 2 * W else BIG * W)
      modifies this, bin
      ensures Valid() && Kept(W, old(Whole()), Whole())
      ensures p == 0 ==> Whole() == old(Whole()) && g.Refused?
      ensures p != 0 ==> NewBlock(W, old(Whole()), Whole(), p, nbytes)
      ensures nbytes <= Bin2Size(W, BINS - 1) ==> 0 <= Size2Bin(W, nbytes) < BINS && |old(lists)| == BINS
      ensures nbytes <= Bin2Size(W, BINS - 1) && old(lists)[Size2Bin(W, nbytes)] != [] ==> p != 0
    {
      hide Sound, Kept, Fresh, NewBlock;
      if nbytes > Bin2Size(W, BINS - 1) {
        p := MallocLarge(nbytes, g);
      } else {
        p := MallocSmall(nbytes, g);
      }
    }

    /** free_small */
    method FreeSmall(p: int, s: int)
      requires Valid() && p in live && p in blocks && blocks[p].Small? && s == SizeOf(W, blocks[p])
      modifies this, bin
      ensures Valid() && Kept(W, old(Whole()), Whole())
      ensures |old(lists)| == BINS && old(blocks)[p].bin < BINS &&
        Whole() == Pushed(old(Whole()), old(blocks)[p].bin, p)
    {
      hide Sound, Kept;
      ghost var m := Whole();
      PushSound(W, m, p);
      Lists50(W, m);
      BinBack(W, blocks[p].bin);
      var b := Size2Bin(W, s);
      var q := bin[b];
      mem := mem[p := q];
      bin[b] := p;
      Become(Pushed(m, b, p));
    }

    /** free_large: the mapping made for the block, all of it and nothing else, is given back. */
    method FreeLarge(p: int, s: int)
      requires Valid() && p in live && p in blocks && blocks[p].Large? && s == SizeOf(W, blocks[p])
      modifies this, bin
      ensures Valid() && Kept(W, old(Whole()), Whole())
      ensures Whole() == Unmapped(W, old(Whole()), p)
    {
      hide Sound, Kept;
      ghost var m := Whole();
      UnmapSound(W, m, p);
      LargeMapping(W, m, p);
      WordSteps(W, 0);
      var waste := W * ALIGN - W;
      LargeRequestWraps(W, s, SIZES);
      assert s + waste + W == s + 2 * W;
      Munmap(p - (waste + W) / W, (s + waste + W) % SIZES);
      Become(Unmapped(W, m, p));
    }

    /** munmap */
    method Munmap(p: int, len: nat)
      requires Fits()
      modifies this`mem
      ensures mem == map k | k in old(mem) && !(p <= k < p + WordsFor(W, len)) :: old(mem)[k]
    {
      mem := map k | k in mem && !(p <= k < p + WordsFor(W, len)) :: mem[k];
    }

    /** free */
    method Free(p: int)
      requires Valid() && (p == 0 || p in live)
      modifies this, bin
      ensures Valid() && Kept(W, old(Whole()), Whole())
      ensures p == 0 ==> Whole() == old(Whole())
      ensures p != 0 ==> p in old(blocks) && live == old(live) - {p}
      ensures p != 0 && old(blocks)[p].Large? ==> Whole() == Unmapped(W, old(Whole()), p)
      ensures p != 0 && old(blocks)[p].Small? ==> |old(lists)| == BINS && old(blocks)[p].bin < BINS
      ensures p != 0 && old(blocks)[p].Small? ==> Whole() == Pushed(old(Whole()), old(blocks)[p].bin, p)
    {
      hide Sound, Kept;
      KeptSame(W, Whole(), Whole());
      if p != 0 {
        HeaderTells(W, Whole(), p);
        var s := mem[p - 1];
        if s <= Bin2Size(W, BINS - 1) {
          FreeSmall(p, s);
        } else {
          FreeLarge(p, s);
        }
      }
    }

    /** A program stores into a block it has been given. */
    method StoreInto(p: int, k: int, x: int)
      requires Valid() && p in live && p in blocks && p <= k < p + Span(W, blocks[p])
      modifies this`mem
      ensures Valid() && k in old(mem) && mem == old(mem)[k := x]
      ensures forall a, j :: a in live && a != p && a in blocks && a <= j < a + Span(W, blocks[a]) ==>
        j in mem && j in old(mem) && mem[j] == old(mem)[j]
    {
      hide Sound;
      OwnerWrite(W, Whole(), p, k, x);
      mem := mem[k := x];
    }
  }

  // ---------------------------------------------------------------- what the methods promise

  /** p is new, aligned, and has room for n bytes; nothing else has come into or gone out of use. */
  ghost predicate NewBlock(W: nat, m: Store, n: Store, p: int, bytes: nat)
    requires W > 0
  {
    && p > 0 && p % 2 == 0 && p !in m.live && n.live == m.live + {p}
    && p in n.blocks && SizeOf(W, n.blocks[p]) >= bytes && Span(W, n.blocks[p]) * W >= bytes
    && forall a :: a in m.blocks ==> a in n.blocks && n.blocks[a] == m.blocks[a]
  }

  /** List b has got count more elements at its front; the other lists are as before. */
  ghost predicate Added(was: seq<seq<int>>, now: seq<seq<int>>, b: nat, count: int) {
    && b < |was| && |now| == |was| && count >= 0 && |now[b]| == |was[b]| + count
    && now[b][|now[b]| - |was[b]|..] == was[b]
    && now == was[b := now[b]]
  }

  lemma AddedMore(was: seq<seq<int>>, mid: seq<seq<int>>, now: seq<seq<int>>, b: nat, count: int, c: seq<int>)
    requires count >= 0 && Added(was, mid, b, count) && now == mid[b := c + mid[b]]
    ensures Added(was, now, b, count + |c|)
  {
    assert now[b][|now[b]| - |was[b]|..] == mid[b][|mid[b]| - |was[b]|..];
  }

  lemma AddedNone(was: seq<seq<int>>, b: nat)
    requires b < |was|
    ensures Added(was, was, b, 0)
  {
  }

  lemma AddedShape(was: seq<seq<int>>, now: seq<seq<int>>, b: nat, count: int)
    requires Added(was, now, b, count)
    ensures b < |was| == |now|
  {
  }

  /** What has been added is whole big blocks of chunks, and was still short of req before the last. */
  ghost predicate Rounds(ful: int, chunks: int, used: nat, req: int) {
    ful == used * chunks && (ful > 0 ==> ful - chunks < req)
  }

  /** The answer after those that brought the ful chunks was a refusal. */
  ghost predicate RefusedAfter(answers: nat -> Mapping, ful: int, chunks: int) {
    exists i: nat :: ful == i * chunks && answers(i).Refused?
  }

  lemma RoundsNone(chunks: int, req: int)
    ensures Rounds(0, chunks, 0, req)
  {
  }

  lemma RoundsNext(ful: int, chunks: int, used: nat, req: int)
    requires Rounds(ful, chunks, used, req) && ful < req
    ensures Rounds(ful + chunks, chunks, used + 1, req)
  {
    Limbs.Distribute(used, 1, chunks);
  }

  lemma RoundsEnd(ful: int, chunks: int, used: nat, req: int)
    requires Rounds(ful, chunks, used, req)
    ensures ful > 0 ==> ful - chunks < req
  {
  }

  lemma RefusedIs(answers: nat -> Mapping, ful: int, chunks: int, used: nat, req: int)
    requires Rounds(ful, chunks, used, req) && answers(used).Refused?
    ensures RefusedAfter(answers, ful, chunks)
  {
  }

  lemma KeptTwice(W: nat, m: Store, n: Store, o: Store)
    requires W > 0 && Kept(W, m, n) && Kept(W, n, o) && forall a :: a in m.live && a in o.live ==> a in n.live
    ensures Kept(W, m, o)
  {
  }

  lemma BigPositive(W: nat)
    requires W > 0
    ensures BIG * W > 0
  {
  }

  lemma SupplyFresh(W: nat, m: Store, answers: nat -> Mapping, i: nat)
    requires W > 0 && Supply(W, m, answers, i)
    ensures Fresh(W, m, answers(i), BIG * W)
  {
  }

  lemma SupplySame(W: nat, m: Store, n: Store, answers: nat -> Mapping, from: nat)
    requires W > 0 && Supply(W, m, answers, from) && n.mem.Keys == m.mem.Keys
    ensures Supply(W, n, answers, from)
  {
    forall i: nat | i >= from ensures Fresh(W, n, answers(i), BIG * W) {
      assert Fresh(W, m, answers(i), BIG * W);
    }
  }

  lemma CarvedHead(m: Store, mem: map<int, int>, p: int, b: nat)
    requires b < BINS && b < |m.bins| && b < |m.lists|
    ensures var n := WithChunks(m, mem, p, b);
      n.lists[b] != [] && n.lists[b][0] == p + 2 && n.live == m.live && n.bins == m.bins[b := p + 2] && n.mem == mem
    ensures forall a :: a in m.blocks ==>
      a in WithChunks(m, mem, p, b).blocks && WithChunks(m, mem, p, b).blocks[a] == m.blocks[a]
  {
    ChunksPositive(b);
    FirstChunk(p, b, Chunks(b));
    AtNext(p, b, 0);
    hide At, Carved, Chunks;
  }

  /** Taking the head of list b gives a new block for any size that bin serves. */
  lemma PopIsNew(W: nat, m: Store, full: Store, b: nat, bytes: nat)
    requires W > 0 && Sound(W, full) && b < BINS && full.lists[b] != [] && bytes <= Bin2Size(W, b)
    requires full.live == m.live && forall a :: a in m.blocks ==> a in full.blocks && full.blocks[a] == m.blocks[a]
    ensures full.lists[b][0] in full.mem && NewBlock(W, m, Popped(full, b), full.lists[b][0], bytes)
  {
    var p := full.lists[b][0];
    HeadOf(W, full, b);
    ListAddress(W, full, b, 0);
    assert Placed(W, full.mapped, p, full.blocks[p]);
    BinWords(W, b);
    assert Bin2Size(W, b) == (2 * b + 1) * W;
    hide Sound;
  }

  lemma KeptPop(W: nat, m: Store, full: Store, b: nat)
    requires W > 0 && b < |full.bins| && b < |full.lists| && full.lists[b] != [] && full.lists[b][0] in full.mem
    requires Kept(W, m, full) && full.live == m.live
    ensures Kept(W, m, Popped(full, b))
  {
  }

  lemma LargeIsNew(W: nat, m: Store, e: Store, p: int, n: nat)
    requires W > 0 && e.blocks == m.blocks && e.live == m.live && p > 0 && p % 2 == 0 && p + 2 !in m.blocks
    requires Sound(W, m)
    ensures NewBlock(W, m, WithLarge(e, p, n), p + 2, n)
  {
    WordsEnough(W, n);
  }

  lemma LargeMapping(W: nat, m: Store, a: int)
    requires W > 0 && Sound(W, m) && a in m.blocks && m.blocks[a].Large?
    ensures a - 2 in m.mapped && m.mapped[a - 2] == m.blocks[a].bytes + 2 * W
  {
    assert Placed(W, m.mapped, a, m.blocks[a]);
  }

  /** The header tells how big a block is and so of which kind. */
  lemma HeaderTells(W: nat, m: Store, a: int)
    requires W > 0 && Sound(W, m) && a in m.live
    ensures a in m.blocks && a - 1 in m.mem && m.mem[a - 1] == SizeOf(W, m.blocks[a])
    ensures m.blocks[a].Small? <==> m.mem[a - 1] <= Bin2Size(W, BINS - 1)
  {
    assert Placed(W, m.mapped, a, m.blocks[a]);
    if m.blocks[a].Small? { BinBack(W, m.blocks[a].bin); }
  }

  /**
   * The length malloc_large asks for is computed in size_t, with a given number of values. It is what the block needs
   * if and only if the sum does not wrap around; otherwise the mapping asked for is shorter than the block.
   */
  lemma LargeRequestWraps(W: nat, n: nat, sizes: nat)
    requires W > 0 && n < sizes && 2 * W < sizes
    ensures (n + 2 * W) % sizes == n + 2 * W <==> n + 2 * W < sizes
    ensures n + 2 * W >= sizes ==> (n + 2 * W) % sizes < n
  {
    if n + 2 * W >= sizes {
      Limbs.RemainderIs(n + 2 * W, sizes, 1, n + 2 * W - sizes);
    } else {
      Limbs.RemainderIs(n + 2 * W, sizes, 0, n + 2 * W);
    }
  }

  lemma EmptySound(W: nat, m: Store)
    requires W > 0 && |m.bins| == BINS && (forall b :: 0 <= b < BINS ==> m.bins[b] == 0)
    requires m.mem == map[] && m.blocks == map[] && m.live == {} && m.mapped == map[]
    requires |m.lists| == BINS && forall b :: 0 <= b < BINS ==> m.lists[b] == []
    ensures Sound(W, m)
  {
  }

  lemma GrantedPositive(W: nat, m: Store, g: Mapping, len: nat)
    requires W > 0 && g.Granted? && Fresh(W, m, g, len)
    ensures g.p > 0 && g.p % 2 == 0
  {
  }

  lemma NotMappedVacant(W: nat, m: Store, g: Mapping, len: nat)
    requires W > 0 && Sound(W, m) && g.Granted? && g.p !in m.mapped
    ensures Vacant(Extended(m, g, len), g.p)
  {
    FreshIsVacant(W, m, g.p);
  }

  lemma NblocksIs(W: nat, b: nat, n: int)
    requires W > 0 && b < BINS && Bin2Size(W, b) + W > 0 && n == (BIG * W - (W * ALIGN - W)) / (Bin2Size(W, b) + W)
    ensures n == Chunks(b) && n >= 1
  {
    ChunkCount(W, b);
    assert W * ALIGN - W == W;
    hide Bin2Size;
  }

  lemma BlockAccessible(W: nat, m: Store, p: int)
    requires W > 0 && Ready(W, m, p)
    ensures Accessible(m.mem, p) && p % 2 == 0
  {
    BigWords(W, 0);
  }

  lemma Lists50(W: nat, m: Store)
    requires W > 0 && Sound(W, m)
    ensures |m.lists| == BINS && |m.bins| == BINS
  {
  }
}
