/** Whole-run safety of the buddy allocator: for every base address, the free and
    the outstanding blocks tile the managed region, each address exactly once. */
module BuddyTiling {
  import opened Common
  import opened Bits
  import opened Buddy

  // ---- blocks ---------------------------------------------------------------

  /** XOR with the block size is the neighbour on one side or the other, and is
      its own inverse. */
  lemma BuddyIsNeighbour(a: nat, k: nat)
    ensures BuddyOf(a, k) == Flip(a, Size(k))
    ensures BuddyOf(a, k) == a + Size(k) || BuddyOf(a, k) == a - Size(k)
    ensures BuddyOf(BuddyOf(a, k), k) == a
  {
    SizeIsPow2(k);
    XorPow2(a, k + 12);
    XorPow2(Flip(a, Size(k)), k + 12);
    FlipInvolution(a, Size(k));
  }

  lemma SizeIsPow2(k: nat)
    ensures Size(k) == Pow2(k + 12)
  {
    Pow2Add(k, 12);
    assert Pow2(12) == PAGE_SZ;
  }

  /** A block weighs what its two halves weigh. */
  lemma Halves(m: Measure, a: nat, k: nat)
    ensures Weigh(m, a, k + 1) == Weigh(m, a, k) + Weigh(m, a + Size(k), k)
  {
    assert Size(k + 1) == 2 * Size(k);
  }

  lemma MergedWeight(m: Measure, a: nat, k: nat)
    ensures Weigh(m, Min(a, BuddyOf(a, k)), k + 1) == Weigh(m, a, k) + Weigh(m, BuddyOf(a, k), k)
  {
    BuddyIsNeighbour(a, k);
    Halves(m, Min(a, BuddyOf(a, k)), k);
  }

  // ---- sums over lists ------------------------------------------------------

  lemma {:induction false} WeighListRemove(m: Measure, l: seq<nat>, i: nat, k: nat)
    requires i < |l|
    ensures WeighList(m, l, k) == WeighList(m, RemoveAt(l, i), k) + Weigh(m, l[i], k)
  {
    if i < |l| - 1 {
      WeighListRemove(m, l[..|l| - 1], i, k);
      assert RemoveAt(l, i)[..|l| - 2] == RemoveAt(l[..|l| - 1], i);
    } else {
      assert RemoveAt(l, i) == l[..|l| - 1];
    }
  }

  lemma {:induction false} WeighFreeUpdate(m: Measure, ls: FreeLists, k: nat, l: seq<nat>)
    requires k < |ls|
    ensures WeighFree(m, ls[k := l]) + WeighList(m, ls[k], k) == WeighFree(m, ls) + WeighList(m, l, k)
  {
    var n := |ls| - 1;
    if k < n {
      WeighFreeUpdate(m, ls[..n], k, l);
      assert ls[k := l][..n] == ls[..n][k := l];
    } else {
      assert ls[k := l][..n] == ls[..n];
    }
  }

  lemma WeighFreePush(m: Measure, ls: FreeLists, k: nat, a: nat)
    requires k < |ls|
    ensures WeighFree(m, Push(ls, k, a)) == WeighFree(m, ls) + Weigh(m, a, k)
  {
    WeighFreeUpdate(m, ls, k, ls[k] + [a]);
    assert (ls[k] + [a])[..|ls[k]|] == ls[k];
  }

  lemma {:induction false} WeighBlocksRemove(m: Measure, bs: seq<Block>, i: nat)
    requires i < |bs|
    ensures WeighBlocks(m, bs) == WeighBlocks(m, RemoveAt(bs, i)) + Weigh(m, bs[i].addr, bs[i].order)
  {
    if i < |bs| - 1 {
      WeighBlocksRemove(m, bs[..|bs| - 1], i);
      assert RemoveAt(bs, i)[..|bs| - 2] == RemoveAt(bs[..|bs| - 1], i);
    } else {
      assert RemoveAt(bs, i) == bs[..|bs| - 1];
    }
  }

  // ---- each operation conserves every measure -------------------------------

  lemma {:induction false} SplitConserves(m: Measure, ls: FreeLists, addr: nat, o: nat, order: nat)
    requires order <= o < |ls|
    ensures WeighFree(m, SplitDown(ls, addr, o, order)) + Weigh(m, addr, order)
         == WeighFree(m, ls) + Weigh(m, addr, o)
    decreases o
  {
    if o > order {
      var upper := addr + Size(o - 1);
      SplitConserves(m, Push(ls, o - 1, upper), addr, o - 1, order);
      WeighFreePush(m, ls, o - 1, upper);
      Halves(m, addr, o - 1);
    }
  }

  /** An allocation takes exactly the returned block out of the free lists. */
  lemma AllocConserves(m: Measure, ls: FreeLists, order: nat)
    requires AllocSpec(ls, order).Some?
    ensures var (a, ls') := AllocSpec(ls, order).value;
            WeighFree(m, ls') + Weigh(m, a, order) == WeighFree(m, ls)
  {
    var o := FirstNonEmpty(ls, order);
    var last := |ls[o]| - 1;
    WeighFreeUpdate(m, ls, o, ls[o][..last]);
    SplitConserves(m, ls[o := ls[o][..last]], ls[o][last], o, order);
  }

  lemma {:induction false} CoalesceConserves(m: Measure, ls: FreeLists, addr: nat, order: nat)
    requires order < |ls|
    ensures var (rest, a, k) := CoalesceUp(ls, addr, order);
            WeighFree(m, rest) + Weigh(m, a, k) == WeighFree(m, ls) + Weigh(m, addr, order)
    decreases |ls| - order
  {
    var b := BuddyOf(addr, order);
    if order + 1 < |ls| && b in ls[order] {
      var i := IndexOf(ls[order], b);
      var l := RemoveAt(ls[order], i);
      CoalesceConserves(m, ls[order := l], Min(addr, b), order + 1);
      WeighFreeUpdate(m, ls, order, l);
      WeighListRemove(m, ls[order], i, order);
      MergedWeight(m, addr, order);
    }
  }

  /** A free returns exactly the given block, whatever it merges with. */
  lemma FreeConserves(m: Measure, ls: FreeLists, addr: nat, order: nat)
    requires order < |ls|
    ensures WeighFree(m, FreeSpec(ls, addr, order)) == WeighFree(m, ls) + Weigh(m, addr, order)
  {
    var (rest, a, k) := CoalesceUp(ls, addr, order);
    CoalesceConserves(m, ls, addr, order);
    WeighFreePush(m, rest, k, a);
  }

  // ---- which block, and where the rest goes ---------------------------------

  lemma {:induction false} SplitDownExact(ls: FreeLists, addr: nat, o: nat, order: nat, j: nat)
    requires order <= o < |ls| && j < |ls|
    ensures SplitDown(ls, addr, o, order)[j] == if order <= j < o then ls[j] + [addr + Size(j)] else ls[j]
    decreases o
  {
    if o > order {
      SplitDownExact(Push(ls, o - 1, addr + Size(o - 1)), addr, o - 1, order, j);
    }
  }

  /** An allocation fails exactly when every list from its order up is empty. Otherwise it takes
      the block freed last in the first list that is not, and appends the upper half of each
      split to the list of its order; nothing else changes. */
  lemma AllocExact(ls: FreeLists, order: nat, o: nat, j: nat)
    requires o <= |ls| && (order < |ls| ==> order <= o) && j < |ls|
    requires forall i :: order <= i < o ==> ls[i] == []
    requires o < |ls| ==> ls[o] != []
    ensures AllocSpec(ls, order).None? <==> order >= |ls| || o == |ls|
    ensures AllocSpec(ls, order).Some? ==>
              var (a, ls') := AllocSpec(ls, order).value;
              var last := |ls[o]| - 1;
              && a == ls[o][last]
              && ls'[j] == if j == o then ls[o][..last]
                           else if order <= j < o then [a + Size(j)]
                           else ls[j]
  {
    if order < |ls| && o < |ls| {
      assert FirstNonEmpty(ls, order) == o;
      SplitDownExact(ls[o := ls[o][..|ls[o]| - 1]], ls[o][|ls[o]| - 1], o, order, j);
    }
  }

  /** Freeing an order that does not exist changes nothing; a block whose buddy is not free, or of
      the largest order, is appended to its list; otherwise the buddy leaves its list and the
      lower of the two addresses is freed one order up. */
  lemma FreeExact(ls: FreeLists, addr: nat, order: nat, i: nat)
    ensures order >= |ls| ==> FreeSpec(ls, addr, order) == ls
    ensures order < |ls| && (order + 1 == |ls| || Flip(addr, Size(order)) !in ls[order])
            ==> FreeSpec(ls, addr, order) == ls[order := ls[order] + [addr]]
    ensures order + 1 < |ls| && FirstAt(ls[order], Flip(addr, Size(order)), i) ==>
              var buddy := ls[order][i];
              var rest := ls[order := ls[order][..i] + ls[order][i + 1..]];
              FreeSpec(ls, addr, order) == FreeSpec(rest, if addr < buddy then addr else buddy, order + 1)
  {
    BuddyIsNeighbour(addr, order);
    if order + 1 < |ls| && FirstAt(ls[order], Flip(addr, Size(order)), i) {
      FirstIndex(ls[order], BuddyOf(addr, order), i);
    }
  }

  /** The first `v` of the list stands at `i`. */
  predicate FirstAt(l: seq<nat>, v: nat, i: nat) {
    i < |l| && l[i] == v && v !in l[..i]
  }

  lemma {:induction false} FirstIndex(l: seq<nat>, v: nat, i: nat)
    requires FirstAt(l, v, i)
    ensures IndexOf(l, v) == i
  {
    if i > 0 {
      assert l[..i][0] == l[0] && l[1..][..i - 1] == l[..i][1..];
      FirstIndex(l[1..], v, i - 1);
    }
  }

  lemma {:induction false} CarveConserves(m: Measure, ls: FreeLists, addr: nat, remaining: nat, o: nat)
    requires o < |ls|
    ensures WeighFree(m, Carve(ls, addr, remaining, o)) == WeighFree(m, ls) + WeighSpan(m, addr, remaining)
    decreases o, remaining
  {
    if remaining >= Pow2(o) {
      CarveConserves(m, Push(ls, o, addr), addr + Size(o), remaining - Pow2(o), o);
      WeighFreePush(m, ls, o, addr);
    } else if o > 0 {
      CarveConserves(m, ls, addr, remaining, o - 1);
    }
  }

  /** The weight of `pages` pages starting at `addr`. */
  function WeighSpan(m: Measure, addr: nat, pages: nat): nat {
    match m
    case At(x) => if addr <= x < addr + pages * PAGE_SZ then 1 else 0
    case Pages => pages
  }

  lemma {:induction false} EmptyListsWeighNothing(m: Measure, n: nat)
    ensures WeighFree(m, seq(n, i => [])) == 0
  {
    if n > 0 {
      EmptyListsWeighNothing(m, n - 1);
      var ls: FreeLists := seq(n, i => []);
      var shorter: FreeLists := seq(n - 1, i => []);
      assert ls[..n - 1] == shorter;
    }
  }

  // ---- runs -----------------------------------------------------------------

  datatype Config = Config(base: nat, totalPages: nat, maxOrder: nat)

  /** The allocator's fields together with the blocks its callers hold. */
  datatype State = State(free: FreeLists, out: seq<Block>, allocatedPages: int)

  datatype Op = Alloc(order: nat) | Free(addr: nat, order: nat)

  function Init(c: Config): State {
    State(InitialLists(c.base, c.totalPages, c.maxOrder), [], 0)
  }

  /** Callers free only blocks they hold. */
  predicate Legal(s: State, op: Op) {
    op.Free? ==> Block(op.addr, op.order) in s.out
  }

  function Apply(s: State, op: Op): State
    requires Legal(s, op)
  {
    match op
    case Alloc(k) =>
      (match AllocSpec(s.free, k)
       case None => s
       case Some((a, ls)) => State(ls, s.out + [Block(a, k)], s.allocatedPages + Pow2(k)))
    case Free(a, k) =>
      State(FreeSpec(s.free, a, k), RemoveAt(s.out, IndexOf(s.out, Block(a, k))),
            s.allocatedPages - (if k < |s.free| then Pow2(k) else 0))
  }

  /** `s` is reached from `s0` by the legal operations `ops`. */
  predicate Run(s0: State, ops: seq<Op>, s: State)
    decreases |ops|
  {
    if ops == [] then s == s0
    else Legal(s0, ops[0]) && Run(Apply(s0, ops[0]), ops[1..], s)
  }

  /** Free plus outstanding blocks weigh what the whole region weighs: with
      `m == At(x)`, every address of the region lies in exactly one block and no
      other address in any. */
  ghost predicate Balanced(c: Config, s: State, m: Measure) {
    WeighFree(m, s.free) + WeighBlocks(m, s.out) == WeighSpan(m, c.base, c.totalPages)
  }

  ghost predicate Tiled(c: Config, s: State) {
    && |s.free| == c.maxOrder + 1
    && (forall m :: Balanced(c, s, m))
    && s.allocatedPages == WeighBlocks(Pages, s.out)
    && (forall i :: 0 <= i < |s.out| ==> s.out[i].order <= c.maxOrder)
  }

  lemma InitTiled(c: Config)
    ensures Tiled(c, Init(c))
  {
    forall m
      ensures Balanced(c, Init(c), m)
    {
      var u := UsableOrder(c.totalPages, c.maxOrder);
      EmptyListsWeighNothing(m, c.maxOrder + 1);
      CarveConserves(m, seq(c.maxOrder + 1, i => []), c.base, c.totalPages, u);
    }
  }

  lemma ApplyBalanced(c: Config, s: State, op: Op, m: Measure)
    requires Tiled(c, s) && Legal(s, op)
    ensures Balanced(c, Apply(s, op), m)
  {
    assert Balanced(c, s, m);
    match op
    case Alloc(k) =>
      if AllocSpec(s.free, k).Some? {
        AllocConserves(m, s.free, k);
        var b := Block(AllocSpec(s.free, k).value.0, k);
        assert (s.out + [b])[..|s.out|] == s.out;
      }
    case Free(a, k) =>
      FreeConserves(m, s.free, a, k);
      WeighBlocksRemove(m, s.out, IndexOf(s.out, Block(a, k)));
  }

  lemma ApplyTiled(c: Config, s: State, op: Op)
    requires Tiled(c, s) && Legal(s, op)
    ensures Tiled(c, Apply(s, op))
  {
    forall m
      ensures Balanced(c, Apply(s, op), m)
    {
      ApplyBalanced(c, s, op, m);
    }
    match op
    case Alloc(k) =>
      if AllocSpec(s.free, k).Some? {
        var b := Block(AllocSpec(s.free, k).value.0, k);
        assert (s.out + [b])[..|s.out|] == s.out;
      }
    case Free(a, k) =>
      WeighBlocksRemove(Pages, s.out, IndexOf(s.out, Block(a, k)));
  }

  lemma {:induction false} RunTiled(c: Config, s0: State, ops: seq<Op>, s: State)
    requires Tiled(c, s0) && Run(s0, ops, s)
    ensures Tiled(c, s)
    decreases |ops|
  {
    if ops != [] {
      ApplyTiled(c, s0, ops[0]);
      RunTiled(c, Apply(s0, ops[0]), ops[1..], s);
    }
  }

  // ---- reading the invariant ------------------------------------------------

  /** A weight never exceeds the sum it is part of. */
  lemma ListWeighsMember(m: Measure, l: seq<nat>, i: nat, k: nat)
    requires i < |l|
    ensures WeighList(m, l, k) >= Weigh(m, l[i], k)
  {
    WeighListRemove(m, l, i, k);
  }

  lemma FreeWeighsLists(m: Measure, ls: FreeLists, j: nat, k: nat)
    requires j < k < |ls|
    ensures WeighFree(m, ls) >= WeighList(m, ls[j], j) + WeighList(m, ls[k], k)
  {
    WeighFreeUpdate(m, ls, j, []);
    WeighFreeUpdate(m, ls[j := []], k, []);
  }

  lemma FreeWeighsList(m: Measure, ls: FreeLists, k: nat)
    requires k < |ls|
    ensures WeighFree(m, ls) >= WeighList(m, ls[k], k)
  {
    WeighFreeUpdate(m, ls, k, []);
  }

  lemma FreeWeighsBlock(m: Measure, ls: FreeLists, k: nat, a: nat)
    requires k < |ls| && a in ls[k]
    ensures WeighFree(m, ls) >= Weigh(m, a, k)
  {
    FreeWeighsList(m, ls, k);
    ListWeighsMember(m, ls[k], IndexOf(ls[k], a), k);
  }

  lemma FreeWeighsTwo(m: Measure, ls: FreeLists, j: nat, p: nat, k: nat, q: nat)
    requires j < |ls| && k < |ls| && p < |ls[j]| && q < |ls[k]| && (j, p) != (k, q)
    ensures WeighFree(m, ls) >= Weigh(m, ls[j][p], j) + Weigh(m, ls[k][q], k)
  {
    if j == k {
      WeighListRemove(m, ls[j], p, j);
      ListWeighsMember(m, RemoveAt(ls[j], p), if q < p then q else q - 1, j);
      FreeWeighsList(m, ls, j);
    } else {
      ListWeighsMember(m, ls[j], p, j);
      ListWeighsMember(m, ls[k], q, k);
      if j < k { FreeWeighsLists(m, ls, j, k); } else { FreeWeighsLists(m, ls, k, j); }
    }
  }

  lemma BlocksWeighMember(m: Measure, bs: seq<Block>, i: nat)
    requires i < |bs|
    ensures WeighBlocks(m, bs) >= Weigh(m, bs[i].addr, bs[i].order)
  {
    WeighBlocksRemove(m, bs, i);
  }

  ghost predicate Disjoint(a: nat, j: nat, b: nat, k: nat) {
    a + Size(j) <= b || b + Size(k) <= a
  }

  /** The first address two overlapping blocks share. */
  function Shared(a: nat, b: nat): nat {
    if a <= b then b else a
  }

  ghost predicate InRegion(c: Config, a: nat, k: nat) {
    c.base <= a && a + Size(k) <= c.base + c.totalPages * PAGE_SZ
  }

  lemma BlockInRegion(c: Config, s: State, a: nat, k: nat)
    requires Tiled(c, s)
    requires (k < |s.free| && a in s.free[k]) || Block(a, k) in s.out
    ensures InRegion(c, a, k)
  {
    forall m
      ensures WeighSpan(m, c.base, c.totalPages) >= Weigh(m, a, k)
    {
      assert Balanced(c, s, m);
      if Block(a, k) in s.out {
        BlocksWeighMember(m, s.out, IndexOf(s.out, Block(a, k)));
      } else {
        FreeWeighsBlock(m, s.free, k, a);
      }
    }
    assert WeighSpan(At(a), c.base, c.totalPages) >= 1;
    assert WeighSpan(At(a + Size(k) - 1), c.base, c.totalPages) >= 1;
  }

  /** Safety of every run, for every base address and size: blocks handed out and
      blocks on the free lists are pairwise disjoint, all inside the region, cover
      it exactly, and the two page counters add up to the total. */
  lemma EveryRunTilesTheRegion(c: Config, ops: seq<Op>, s: State)
    requires Run(Init(c), ops, s)
    ensures forall x :: WeighFree(At(x), s.free) + WeighBlocks(At(x), s.out)
                     == if c.base <= x < c.base + c.totalPages * PAGE_SZ then 1 else 0
    ensures s.allocatedPages + WeighFree(Pages, s.free) == c.totalPages
    ensures forall j, p, k, q ::
              0 <= j < |s.free| && 0 <= k < |s.free| && 0 <= p < |s.free[j]| && 0 <= q < |s.free[k]| && (j, p) != (k, q)
              ==> Disjoint(s.free[j][p], j, s.free[k][q], k)
    ensures forall i, k, q :: 0 <= i < |s.out| && 0 <= k < |s.free| && 0 <= q < |s.free[k]|
              ==> Disjoint(s.out[i].addr, s.out[i].order, s.free[k][q], k)
    ensures forall i, j :: 0 <= i < j < |s.out|
              ==> Disjoint(s.out[i].addr, s.out[i].order, s.out[j].addr, s.out[j].order)
    ensures forall b :: b in s.out ==> InRegion(c, b.addr, b.order)
  {
    InitTiled(c);
    RunTiled(c, Init(c), ops, s);
    forall x
      ensures WeighFree(At(x), s.free) + WeighBlocks(At(x), s.out)
           == if c.base <= x < c.base + c.totalPages * PAGE_SZ then 1 else 0
    {
      assert Balanced(c, s, At(x));
    }
    assert Balanced(c, s, Pages);
    forall j, p, k, q | 0 <= j < |s.free| && 0 <= k < |s.free| && 0 <= p < |s.free[j]| && 0 <= q < |s.free[k]|
                        && (j, p) != (k, q)
      ensures Disjoint(s.free[j][p], j, s.free[k][q], k)
    {
      FreeWeighsTwo(At(Shared(s.free[j][p], s.free[k][q])), s.free, j, p, k, q);
    }
    forall i, k, q | 0 <= i < |s.out| && 0 <= k < |s.free| && 0 <= q < |s.free[k]|
      ensures Disjoint(s.out[i].addr, s.out[i].order, s.free[k][q], k)
    {
      var m := At(Shared(s.out[i].addr, s.free[k][q]));
      FreeWeighsBlock(m, s.free, k, s.free[k][q]);
      BlocksWeighMember(m, s.out, i);
      assert Balanced(c, s, m);
    }
    forall i, j | 0 <= i < j < |s.out|
      ensures Disjoint(s.out[i].addr, s.out[i].order, s.out[j].addr, s.out[j].order)
    {
      var m := At(Shared(s.out[i].addr, s.out[j].addr));
      WeighBlocksRemove(m, s.out, j);
      BlocksWeighMember(m, RemoveAt(s.out, j), i);
      assert Balanced(c, s, m);
    }
    forall b | b in s.out
      ensures InRegion(c, b.addr, b.order)
    {
      BlockInRegion(c, s, b.addr, b.order);
    }
  }
}
