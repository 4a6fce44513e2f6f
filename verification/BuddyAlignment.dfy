/** Alignment of the base is exactly what complete coalescing needs: with a
    page-aligned base that is not a multiple of the largest block, some run frees
    everything and still leaves the region fragmented. */
module BuddyAlignment {
  import opened Common
  import opened Bits
  import opened Buddy
  import opened BuddyTiling
  import opened BuddyCanonical

  /** Every run that ends with nothing outstanding restores the initial blocks. */
  ghost predicate AlwaysRestores(c: Config) {
    forall ops, s :: Run(Init(c), ops, s) && s.out == [] ==> SameBlocks(s.free, Init(c).free)
  }

  // ---- where the constructor puts its blocks --------------------------------

  /** Blocks of order at least `j` start at a multiple of `2^(j+1)` pages from the base. */
  ghost predicate Offsets(base: nat, ls: FreeLists, j: nat) {
    forall k, a :: j <= k < |ls| && a in ls[k] ==> a >= base && (a - base) % Size(j + 1) == 0
  }

  lemma {:induction false} CarveBelowKeeps(ls: FreeLists, addr: nat, remaining: nat, o: nat, k: nat)
    requires o < k < |ls|
    ensures Carve(ls, addr, remaining, o)[k] == ls[k]
    decreases o, remaining
  {
    if remaining >= Pow2(o) {
      CarveBelowKeeps(Push(ls, o, addr), addr + Size(o), remaining - Pow2(o), o, k);
    } else if o > 0 {
      CarveBelowKeeps(ls, addr, remaining, o - 1, k);
    }
  }

  lemma SizeMultiple(k: nat, j: nat)
    requires j <= k
    ensures Size(k) % Size(j) == 0
  {
    Pow2Add(k - j, j);
    assert Size(k) == Pow2(k - j) * Size(j);
    MulMod(Pow2(k - j), Size(j));
  }

  lemma {:induction false} CarveOffsets(base: nat, ls: FreeLists, addr: nat, remaining: nat, o: nat, j: nat)
    requires j <= o < |ls| && addr >= base && Offsets(base, ls, j)
    requires (addr - base) % Size(j + 1) == 0
    requires forall i :: 0 <= i < o ==> ls[i] == []
    requires o == j ==> ls[j] == [] && remaining < 2 * Pow2(j)
    ensures Offsets(base, Carve(ls, addr, remaining, o), j)
    ensures |Carve(ls, addr, remaining, o)[j]| <= 1
    decreases o, remaining
  {
    if o > j {
      if remaining >= Pow2(o) {
        SizeMultiple(o, j + 1);
        ModAdd(Size(o), addr - base, Size(j + 1));
        CarveOffsets(base, Push(ls, o, addr), addr + Size(o), remaining - Pow2(o), o, j);
      } else {
        CarveOffsets(base, ls, addr, remaining, o - 1, j);
      }
    } else {
      CarveTail(base, ls, addr, remaining, j);
    }
  }

  lemma CarveTail(base: nat, ls: FreeLists, addr: nat, remaining: nat, j: nat)
    requires j < |ls| && addr >= base && Offsets(base, ls, j) && (addr - base) % Size(j + 1) == 0
    requires ls[j] == [] && remaining < 2 * Pow2(j)
    ensures Offsets(base, Carve(ls, addr, remaining, j), j)
    ensures |Carve(ls, addr, remaining, j)[j]| <= 1
  {
    var ls1, addr1, rem1 := ls, addr, remaining;
    if remaining >= Pow2(j) {
      ls1, addr1, rem1 := Push(ls, j, addr), addr + Size(j), remaining - Pow2(j);
    }
    assert Carve(ls, addr, remaining, j) == Carve(ls1, addr1, rem1, j);
    assert Offsets(base, ls1, j);
    if j > 0 {
      forall k | j <= k < |ls1|
        ensures Carve(ls1, addr1, rem1, j)[k] == ls1[k]
      {
        CarveBelowKeeps(ls1, addr1, rem1, j - 1, k);
      }
    }
  }

  lemma {:induction false} CarveGrows(ls: FreeLists, addr: nat, remaining: nat, o: nat, k: nat)
    requires o < |ls| && k < |ls| && (ls[k] != [] || (k == o && remaining >= Pow2(o)))
    ensures Carve(ls, addr, remaining, o)[k] != []
    decreases o, remaining
  {
    if remaining >= Pow2(o) {
      CarveGrows(Push(ls, o, addr), addr + Size(o), remaining - Pow2(o), o, k);
    } else if o > 0 {
      CarveGrows(ls, addr, remaining, o - 1, k);
    }
  }

  lemma InitialShape(c: Config, j: nat)
    requires j < UsableOrder(c.totalPages, c.maxOrder)
    ensures Offsets(c.base, Init(c).free, j) && |Init(c).free[j]| <= 1
    ensures Init(c).free[UsableOrder(c.totalPages, c.maxOrder)] != []
  {
    var u := UsableOrder(c.totalPages, c.maxOrder);
    var empty: FreeLists := seq(c.maxOrder + 1, i => []);
    DivModUnique(0, Size(j + 1), 0, 0);
    CarveOffsets(c.base, empty, c.base, c.totalPages, u, j);
    Pow2Monotone(u, Log2Floor(c.totalPages));
    CarveGrows(empty, c.base, c.totalPages, u, u);
  }

  // ---- what the operations leave at one order -------------------------------

  lemma {:induction false} SplitAtOrder(ls: FreeLists, addr: nat, o: nat, order: nat)
    requires order < o < |ls|
    ensures SplitDown(ls, addr, o, order)[order] == ls[order] + [addr + Size(order)]
    decreases o
  {
    if o - 1 > order {
      SplitAtOrder(Push(ls, o - 1, addr + Size(o - 1)), addr, o - 1, order);
    }
  }

  /** Splitting a higher block for order `j` leaves just its upper part there. */
  lemma AllocFromAbove(ls: FreeLists, j: nat, u: nat) returns (a: nat)
    requires j < u < |ls| && ls[j] == [] && ls[u] != []
    ensures AllocSpec(ls, j).Some? && AllocSpec(ls, j).value.0 == a
    ensures AllocSpec(ls, j).value.1[j] == [a + Size(j)]
    ensures exists k :: j < k < |ls| && a in ls[k]
  {
    var o := FirstNonEmpty(ls, j);
    var last := |ls[o]| - 1;
    a := ls[o][last];
    SplitAtOrder(ls[o := ls[o][..last]], a, o, j);
  }

  lemma {:induction false} CoalesceBelowKeeps(ls: FreeLists, addr: nat, order: nat, j: nat)
    requires j < order < |ls|
    ensures CoalesceUp(ls, addr, order).0[j] == ls[j]
    decreases |ls| - order
  {
    var b := BuddyOf(addr, order);
    if order + 1 < |ls| && b in ls[order] {
      CoalesceBelowKeeps(ls[order := RemoveAt(ls[order], IndexOf(ls[order], b))], Min(addr, b), order + 1, j);
    }
  }

  lemma FreeWithoutBuddy(ls: FreeLists, a: nat, j: nat)
    requires j < |ls| && BuddyOf(a, j) !in ls[j]
    ensures FreeSpec(ls, a, j)[j] == ls[j] + [a]
  {
  }

  lemma FreeAddsOnlyItself(ls: FreeLists, a: nat, j: nat)
    requires j < |ls|
    ensures forall b :: b in FreeSpec(ls, a, j)[j] ==> b in ls[j] || b == a
  {
    var b := BuddyOf(a, j);
    if j + 1 < |ls| && b in ls[j] {
      CoalesceBelowKeeps(ls[j := RemoveAt(ls[j], IndexOf(ls[j], b))], Min(a, b), j + 1, j);
    }
  }

  /** An address an odd number of blocks from zero has its buddy below it, away from
      the part it was split from. */
  lemma OddBuddyIsBelow(base: nat, a: nat, j: nat)
    requires Aligned(base, j) && !Aligned(base, j + 1)
    requires a >= base && (a - base) % Size(j + 1) == 0
    ensures a >= Size(j) && BuddyOf(a, j) == a - Size(j)
    ensures a % Size(j + 1) == Size(j)
  {
    var s := Size(j);
    assert Size(j + 1) == 2 * s;
    var q := base / s;
    assert base == s * q;
    if q % 2 == 0 {
      assert base == (2 * s) * (q / 2);
      DivModUnique(base, 2 * s, q / 2, 0);
    }
    var h := (q - 1) / 2;
    ScaleSucc(s, 2 * h);
    assert base == (2 * s) * h + s;
    DivModUnique(base, 2 * s, h, s);
    ModAdd(a - base, base, 2 * s);
    assert a % (2 * s) == s;
    FlipOfOdd(a, s);
    BuddyIsNeighbour(a, j);
  }

  lemma FlipOfOdd(a: nat, s: nat)
    requires s > 0 && a % (2 * s) == s
    ensures a >= s && Flip(a, s) == a - s
  {
    var h := a / (2 * s);
    assert a == (2 * s) * h + s;
    assert (2 * s) * h == s * (2 * h);
    ScaleSucc(s, 2 * h);
    DivModUnique(a, s, 2 * h + 1, 0);
    FlipInRange(a, s);
  }

  // ---- the failing run ------------------------------------------------------

  lemma LastAlignedOrder(base: nat, u: nat) returns (j: nat)
    requires Aligned(base, 0) && !Aligned(base, u)
    ensures j < u && Aligned(base, j) && !Aligned(base, j + 1)
  {
    j := 0;
    while Aligned(base, j + 1)
      invariant j < u && Aligned(base, j)
      decreases u - j
    {
      j := j + 1;
    }
  }

  lemma RunTwo(s0: State, p: Op, q: Op)
    requires Legal(s0, p) && Legal(Apply(s0, p), q)
    ensures Run(s0, [p, q], Apply(Apply(s0, p), q))
  {
    assert [p, q][1..] == [q];
    assert [q][1..] == [];
  }

  lemma RunFour(s0: State, p: Op, q: Op, r: Op, t: Op)
    requires Legal(s0, p) && Legal(Apply(s0, p), q)
    requires Legal(Apply(Apply(s0, p), q), r) && Legal(Apply(Apply(Apply(s0, p), q), r), t)
    ensures Run(s0, [p, q, r, t], Apply(Apply(Apply(Apply(s0, p), q), r), t))
  {
    RunTwo(Apply(Apply(s0, p), q), r, t);
    assert [p, q, r, t][1..][1..] == [r, t];
  }

  /** No block of order `j` to start with: split one, free its lower part. */
  lemma SplitThenFree(c: Config, j: nat)
    requires j < UsableOrder(c.totalPages, c.maxOrder)
    requires Aligned(c.base, j) && !Aligned(c.base, j + 1) && Init(c).free[j] == []
    ensures !AlwaysRestores(c)
  {
    var u := UsableOrder(c.totalPages, c.maxOrder);
    var s0 := Init(c);
    InitialShape(c, j);
    var a := AllocFromAbove(s0.free, j, u);
    OddBuddyIsBelow(c.base, a, j);
    var s1 := Apply(s0, Alloc(j));
    assert s1.out == [Block(a, j)];
    var s2 := Apply(s1, Free(a, j));
    RunTwo(s0, Alloc(j), Free(a, j));
    FreeWithoutBuddy(s1.free, a, j);
    NotRestored(c, [Alloc(j), Free(a, j)], s2, j, a);
  }

  /** With one block `t` of order `j` to start with, two allocations return it and the
      lower part `a` of a split block. */
  lemma TakeTailThenSplit(c: Config, j: nat, t: nat) returns (a: nat, s: State)
    requires j < UsableOrder(c.totalPages, c.maxOrder) && Init(c).free[j] == [t]
    ensures s == Apply(Apply(Init(c), Alloc(j)), Alloc(j)) && Tiled(c, s)
    ensures s.out == [Block(t, j), Block(a, j)] && s.free[j] == [a + Size(j)]
    ensures a >= c.base && (a - c.base) % Size(j + 1) == 0
    ensures t >= c.base && (t - c.base) % Size(j + 1) == 0
  {
    var s0 := Init(c);
    InitTiled(c);
    InitialShape(c, j);
    assert t in s0.free[j];
    var s1 := Apply(s0, Alloc(j));
    assert s1.free == s0.free[j := []] && s1.out == [Block(t, j)];
    ApplyTiled(c, s0, Alloc(j));
    a := AllocFromAbove(s1.free, j, UsableOrder(c.totalPages, c.maxOrder));
    s := Apply(s1, Alloc(j));
    ApplyTiled(c, s1, Alloc(j));
  }

  lemma OutstandingDiffer(c: Config, s: State, t: nat, a: nat, j: nat)
    requires Tiled(c, s) && s.out == [Block(t, j), Block(a, j)]
    ensures a != t
  {
    assert Balanced(c, s, At(a));
    WeighBlocksRemove(At(a), s.out, 1);
    BlocksWeighMember(At(a), RemoveAt(s.out, 1), 0);
  }

  /** Freeing them in the order they came leaves `a` unmerged. */
  lemma FreeBothLeavesLower(s: State, t: nat, a: nat, j: nat)
    requires j < |s.free| && s.out == [Block(t, j), Block(a, j)] && s.free[j] == [a + Size(j)]
    requires a >= Size(j) && BuddyOf(a, j) == a - Size(j) && BuddyOf(t, j) == t - Size(j)
    ensures var s' := Apply(s, Free(t, j));
            Legal(s', Free(a, j)) && Apply(s', Free(a, j)).out == [] && a in Apply(s', Free(a, j)).free[j]
  {
    var s' := Apply(s, Free(t, j));
    assert s'.out == [Block(a, j)];
    FreeAddsOnlyItself(s.free, t, j);
    assert t != a - Size(j) by { BuddyIsNeighbour(a, j); }
    FreeWithoutBuddy(s'.free, a, j);
  }

  lemma TailCaseFails(c: Config, j: nat, t: nat)
    requires j < UsableOrder(c.totalPages, c.maxOrder)
    requires Aligned(c.base, j) && !Aligned(c.base, j + 1) && Init(c).free[j] == [t]
    ensures !AlwaysRestores(c)
  {
    var s0 := Init(c);
    var a, s2 := TakeTailThenSplit(c, j, t);
    OddBuddyIsBelow(c.base, a, j);
    OddBuddyIsBelow(c.base, t, j);
    OutstandingDiffer(c, s2, t, a, j);
    FreeBothLeavesLower(s2, t, a, j);
    RunFour(s0, Alloc(j), Alloc(j), Free(t, j), Free(a, j));
    NotRestored(c, [Alloc(j), Alloc(j), Free(t, j), Free(a, j)], Apply(Apply(s2, Free(t, j)), Free(a, j)), j, a);
  }

  lemma NotRestored(c: Config, ops: seq<Op>, s: State, j: nat, a: nat)
    requires Run(Init(c), ops, s) && s.out == []
    requires j < |s.free| && |s.free| == |Init(c).free| && a in s.free[j] && a !in Init(c).free[j]
    ensures !AlwaysRestores(c)
  {
  }

  /** For page-aligned bases, freeing everything always restores the initial blocks
      if and only if the base is a multiple of the largest block. */
  lemma RestoresIffAligned(c: Config)
    requires c.base % PAGE_SZ == 0
    ensures AlwaysRestores(c) <==> AlignedBase(c)
  {
    if AlignedBase(c) {
      forall ops, s | Run(Init(c), ops, s) && s.out == []
        ensures SameBlocks(s.free, Init(c).free)
      {
        FreeingAllRestores(c, ops, s);
      }
    } else {
      var j := LastAlignedOrder(c.base, UsableOrder(c.totalPages, c.maxOrder));
      InitialShape(c, j);
      if Init(c).free[j] == [] {
        SplitThenFree(c, j);
      } else {
        TailCaseFails(c, j, Init(c).free[j][0]);
      }
    }
  }
}
