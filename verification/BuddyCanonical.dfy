/** Complete coalescing: with an aligned base the free lists are a canonical form of
    the set of free addresses, so allocation fails only when it must and freeing
    everything restores the initial blocks. */
module BuddyCanonical {
  import opened Common
  import opened Bits
  import opened Buddy
  import opened BuddyTiling

  ghost predicate Aligned(a: nat, k: nat) {
    a % Size(k) == 0
  }

  ghost predicate AllAligned(ls: FreeLists) {
    forall k, a :: 0 <= k < |ls| && a in ls[k] ==> Aligned(a, k)
  }

  /** Below the top order no two buddies are both free. */
  ghost predicate NoFreeBuddies(ls: FreeLists) {
    forall k, a :: 0 <= k < |ls| - 1 && a in ls[k] ==> BuddyOf(a, k) !in ls[k]
  }

  ghost predicate Canonical(ls: FreeLists) {
    AllAligned(ls) && NoFreeBuddies(ls)
  }

  // ---- alignment ------------------------------------------------------------

  lemma {:induction false} AlignedBelow(a: nat, o: nat, k: nat)
    requires k <= o && Aligned(a, o)
    ensures Aligned(a, k)
  {
    if k < o {
      var s, q := Size(o - 1), a / Size(o);
      assert a == Size(o) * q == s * (2 * q);
      DivModUnique(a, s, 2 * q, 0);
      AlignedBelow(a, o - 1, k);
    }
  }

  lemma AlignedNext(a: nat, o: nat, k: nat)
    requires k <= o && Aligned(a, o)
    ensures Aligned(a + Size(k), k)
  {
    AlignedBelow(a, o, k);
    ModAdd(a, Size(k), Size(k));
    DivModUnique(Size(k), Size(k), 1, 0);
  }

  lemma MergeAligned(a: nat, k: nat)
    requires Aligned(a, k)
    ensures Aligned(Min(a, BuddyOf(a, k)), k + 1)
  {
    BuddyIsNeighbour(a, k);
    FlipLowerAligned(a, Size(k));
    assert Size(k + 1) == 2 * Size(k);
  }

  /** An aligned block that meets an aligned block at least as large lies inside it. */
  lemma MeetsThenInside(a: nat, j: nat, b: nat, m: nat)
    requires j <= m && Aligned(a, j) && Aligned(b, m)
    requires a < b + Size(m) && b < a + Size(j)
    ensures b <= a && a + Size(j) <= b + Size(m)
  {
    AlignedBelow(b, m, j);
    AlignedNext(b, m, m);
    AlignedBelow(b + Size(m), m, j);
    if a < b { MultiplesApart(a, b, Size(j)); }
    MultiplesApart(a, b + Size(m), Size(j));
  }

  // ---- preservation ---------------------------------------------------------

  lemma {:induction false} CarveCanonical(ls: FreeLists, addr: nat, remaining: nat, o: nat)
    requires o < |ls| && Aligned(addr, o) && AllAligned(ls)
    requires forall j :: 0 <= j < o ==> ls[j] == []
    requires forall j :: o < j < |ls| - 1 ==> |ls[j]| <= 1
    requires o + 1 < |ls| ==> (ls[o] == [] && remaining < 2 * Pow2(o)) || (|ls[o]| == 1 && remaining < Pow2(o))
    ensures Canonical(Carve(ls, addr, remaining, o))
    decreases o, remaining
  {
    if remaining >= Pow2(o) {
      AlignedNext(addr, o, o);
      CarveCanonical(Push(ls, o, addr), addr + Size(o), remaining - Pow2(o), o);
    } else if o > 0 {
      AlignedBelow(addr, o, o - 1);
      CarveCanonical(ls, addr, remaining, o - 1);
    } else {
      forall k, a | 0 <= k < |ls| - 1 && a in ls[k]
        ensures BuddyOf(a, k) !in ls[k]
      {
        BuddyIsNeighbour(a, k);
        assert |ls[k]| <= 1;
        assert a == ls[k][0];
      }
    }
  }

  lemma PushCanonical(ls: FreeLists, k: nat, a: nat)
    requires k < |ls| && Canonical(ls) && Aligned(a, k)
    requires k + 1 < |ls| ==> BuddyOf(a, k) !in ls[k]
    ensures Canonical(Push(ls, k, a))
  {
    var ls' := Push(ls, k, a);
    forall j, b | 0 <= j < |ls'| - 1 && b in ls'[j]
      ensures BuddyOf(b, j) !in ls'[j]
    {
      BuddyIsNeighbour(b, j);
      if j == k { BuddyIsNeighbour(a, k); }
    }
  }

  lemma ShrinkCanonical(ls: FreeLists, k: nat, l: seq<nat>)
    requires k < |ls| && Canonical(ls)
    requires forall a :: a in l ==> a in ls[k]
    ensures Canonical(ls[k := l])
  {
  }

  lemma {:induction false} SplitCanonical(ls: FreeLists, addr: nat, o: nat, order: nat)
    requires order <= o < |ls| && Canonical(ls) && Aligned(addr, o)
    requires forall i :: order <= i < o ==> ls[i] == []
    ensures Canonical(SplitDown(ls, addr, o, order))
    decreases o
  {
    if o > order {
      var upper := addr + Size(o - 1);
      AlignedNext(addr, o, o - 1);
      AlignedBelow(addr, o, o - 1);
      PushCanonical(ls, o - 1, upper);
      SplitCanonical(Push(ls, o - 1, upper), addr, o - 1, order);
    }
  }

  lemma AllocCanonical(ls: FreeLists, order: nat)
    requires Canonical(ls) && AllocSpec(ls, order).Some?
    ensures Canonical(AllocSpec(ls, order).value.1)
    ensures Aligned(AllocSpec(ls, order).value.0, order)
  {
    var o := FirstNonEmpty(ls, order);
    var last := |ls[o]| - 1;
    ShrinkCanonical(ls, o, ls[o][..last]);
    assert ls[o][last] in ls[o];
    SplitCanonical(ls[o := ls[o][..last]], ls[o][last], o, order);
    AlignedBelow(ls[o][last], o, order);
  }

  lemma {:induction false} CoalesceCanonical(ls: FreeLists, addr: nat, order: nat)
    requires order < |ls| && Canonical(ls) && Aligned(addr, order)
    ensures Canonical(CoalesceUp(ls, addr, order).0)
    ensures Aligned(CoalesceUp(ls, addr, order).1, CoalesceUp(ls, addr, order).2)
    decreases |ls| - order
  {
    var b := BuddyOf(addr, order);
    if order + 1 < |ls| && b in ls[order] {
      var l := RemoveAt(ls[order], IndexOf(ls[order], b));
      ShrinkCanonical(ls, order, l);
      MergeAligned(addr, order);
      CoalesceCanonical(ls[order := l], Min(addr, b), order + 1);
    }
  }

  lemma FreeCanonical(ls: FreeLists, addr: nat, order: nat)
    requires order < |ls| && Canonical(ls) && Aligned(addr, order)
    ensures Canonical(FreeSpec(ls, addr, order))
  {
    var (rest, a, k) := CoalesceUp(ls, addr, order);
    CoalesceCanonical(ls, addr, order);
    PushCanonical(rest, k, a);
  }

  // ---- runs -----------------------------------------------------------------

  /** The base is a multiple of the largest block the constructor can make. */
  ghost predicate AlignedBase(c: Config) {
    Aligned(c.base, UsableOrder(c.totalPages, c.maxOrder))
  }

  ghost predicate CanonicalState(s: State) {
    && Canonical(s.free)
    && (forall b :: b in s.out ==> Aligned(b.addr, b.order))
  }

  lemma InitCanonical(c: Config)
    requires AlignedBase(c)
    ensures CanonicalState(Init(c))
  {
    CarveCanonical(seq(c.maxOrder + 1, i => []), c.base, c.totalPages, UsableOrder(c.totalPages, c.maxOrder));
  }

  lemma ApplyCanonical(c: Config, s: State, op: Op)
    requires Tiled(c, s) && CanonicalState(s) && Legal(s, op)
    ensures CanonicalState(Apply(s, op))
  {
    match op
    case Alloc(k) => if AllocSpec(s.free, k).Some? { AllocCanonical(s.free, k); }
    case Free(a, k) => FreeCanonical(s.free, a, k);
  }

  lemma {:induction false} RunCanonical(c: Config, s0: State, ops: seq<Op>, s: State)
    requires Tiled(c, s0) && CanonicalState(s0) && Run(s0, ops, s)
    ensures Tiled(c, s) && CanonicalState(s)
    decreases |ops|
  {
    if ops != [] {
      ApplyTiled(c, s0, ops[0]);
      ApplyCanonical(c, s0, ops[0]);
      RunCanonical(c, Apply(s0, ops[0]), ops[1..], s);
    }
  }

  // ---- completeness of allocation -------------------------------------------

  ghost predicate FreeAt(ls: FreeLists, x: int) {
    WeighFree(At(x), ls) >= 1
  }

  /** The aligned run of `2^k` pages at `a` is wholly free. */
  ghost predicate FreeRun(ls: FreeLists, a: nat, k: nat) {
    Aligned(a, k) && forall x :: a <= x < a + Size(k) ==> FreeAt(ls, x)
  }

  lemma {:induction false} CoveringInList(x: int, l: seq<nat>, k: nat) returns (a: nat)
    requires WeighList(At(x), l, k) >= 1
    ensures a in l && a <= x < a + Size(k)
  {
    a := l[|l| - 1];
    if Weigh(At(x), a, k) == 0 {
      a := CoveringInList(x, l[..|l| - 1], k);
    }
  }

  lemma {:induction false} CoveringBlock(x: int, ls: FreeLists) returns (a: nat, k: nat)
    requires FreeAt(ls, x)
    ensures k < |ls| && a in ls[k] && a <= x < a + Size(k)
  {
    k := |ls| - 1;
    if WeighList(At(x), ls[k], k) >= 1 {
      a := CoveringInList(x, ls[k], k);
    } else {
      a, k := CoveringBlock(x, ls[..k]);
    }
  }

  /** A wholly free aligned run lies inside one free block: fragments of it would
      include two free buddies. */
  lemma {:induction false} FreeRunInOneBlock(ls: FreeLists, a: nat, j: nat) returns (b: nat, m: nat)
    requires Canonical(ls) && FreeRun(ls, a, j) && j < |ls|
    ensures j <= m < |ls| && b in ls[m] && b <= a && a + Size(j) <= b + Size(m)
    decreases j
  {
    if j == 0 {
      assert FreeAt(ls, a);
      b, m := CoveringBlock(a, ls);
      MeetsThenInside(a, 0, b, m);
    } else {
      var h := Size(j - 1);
      assert Size(j) == 2 * h;
      AlignedBelow(a, j, j - 1);
      AlignedNext(a, j, j - 1);
      b, m := FreeRunInOneBlock(ls, a, j - 1);
      var b', m' := FreeRunInOneBlock(ls, a + h, j - 1);
      if m >= j {
        MeetsThenInside(a, j, b, m);
      } else if m' >= j {
        MeetsThenInside(a, j, b', m');
        b, m := b', m';
      } else {
        assert b == a && b' == a + h;
        LowerHalfBuddy(a, j);
        assert false;
      }
    }
  }

  lemma LowerHalfBuddy(a: nat, j: nat)
    requires j > 0 && Aligned(a, j)
    ensures BuddyOf(a, j - 1) == a + Size(j - 1)
  {
    BuddyIsNeighbour(a, j - 1);
    FlipOfEven(a, Size(j - 1));
  }

  /** Allocation of an order fails exactly when no size-aligned run of that many
      pages is wholly free. */
  lemma AllocFailsIffNoFreeRun(c: Config, ops: seq<Op>, s: State, order: nat)
    requires AlignedBase(c) && Run(Init(c), ops, s) && order <= c.maxOrder
    ensures AllocSpec(s.free, order).None? <==> !exists a :: FreeRun(s.free, a, order)
  {
    InitTiled(c);
    InitCanonical(c);
    RunCanonical(c, Init(c), ops, s);
    if AllocSpec(s.free, order).None? {
      forall a | FreeRun(s.free, a, order)
        ensures false
      {
        var b, m := FreeRunInOneBlock(s.free, a, order);
      }
    } else {
      var (a, rest) := AllocSpec(s.free, order).value;
      AllocCanonical(s.free, order);
      forall x | a <= x < a + Size(order)
        ensures FreeAt(s.free, x)
      {
        AllocConserves(At(x), s.free, order);
      }
      assert FreeRun(s.free, a, order);
    }
  }

  // ---- uniqueness of the canonical form -------------------------------------

  ghost predicate AtMostOnce(ls: FreeLists) {
    forall x :: WeighFree(At(x), ls) <= 1
  }

  lemma TiledAtMostOnce(c: Config, s: State)
    requires Tiled(c, s)
    ensures AtMostOnce(s.free)
  {
    forall x
      ensures WeighFree(At(x), s.free) <= 1
    {
      assert Balanced(c, s, At(x));
    }
  }

  ghost predicate SameFreeAddresses(ls: FreeLists, ls': FreeLists) {
    forall x :: FreeAt(ls, x) <==> FreeAt(ls', x)
  }

  lemma SameFreeRun(ls: FreeLists, ls': FreeLists, a: nat, k: nat)
    requires SameFreeAddresses(ls, ls') && FreeRun(ls, a, k)
    ensures FreeRun(ls', a, k)
  {
  }

  /** Free lists with the same free addresses hold the same blocks. */
  lemma SameAddressesSameBlocks(ls: FreeLists, ls': FreeLists, k: nat, a: nat)
    requires |ls| == |ls'| && Canonical(ls) && Canonical(ls') && AtMostOnce(ls)
    requires SameFreeAddresses(ls, ls')
    requires k < |ls| && a in ls[k]
    ensures a in ls'[k]
  {
    BlockIsFreeRun(ls, k, a);
    SameFreeRun(ls, ls', a, k);
    var b, m := FreeRunInOneBlock(ls', a, k);
    BlockIsFreeRun(ls', m, b);
    SameFreeRun(ls', ls, b, m);
    var d, n := FreeRunInOneBlock(ls, b, m);
    OneBlockPerAddress(ls, k, a, n, d);
  }

  lemma OneBlockPerAddress(ls: FreeLists, k: nat, a: nat, n: nat, d: nat)
    requires AtMostOnce(ls) && k < |ls| && n < |ls| && a in ls[k] && d in ls[n]
    requires d <= a < d + Size(n)
    ensures k == n && a == d
  {
    var p, q := IndexOf(ls[k], a), IndexOf(ls[n], d);
    if (k, p) != (n, q) {
      FreeWeighsTwo(At(a), ls, k, p, n, q);
      assert false;
    }
  }

  lemma BlockIsFreeRun(ls: FreeLists, k: nat, a: nat)
    requires AllAligned(ls) && k < |ls| && a in ls[k]
    ensures FreeRun(ls, a, k)
  {
    forall x | a <= x < a + Size(k)
      ensures FreeAt(ls, x)
    {
      FreeWeighsBlock(At(x), ls, k, a);
    }
  }

  ghost predicate SameBlocks(ls: FreeLists, ls': FreeLists) {
    |ls| == |ls'| && forall k, a :: 0 <= k < |ls| ==> (a in ls[k] <==> a in ls'[k])
  }

  /** Any two runs that leave the same addresses free leave the same free blocks:
      the allocator keeps no trace of the order of events. */
  lemma FreeBlocksIndependentOfHistory(c: Config, ops: seq<Op>, s: State, ops': seq<Op>, s': State)
    requires AlignedBase(c) && Run(Init(c), ops, s) && Run(Init(c), ops', s')
    requires SameFreeAddresses(s.free, s'.free)
    ensures SameBlocks(s.free, s'.free)
  {
    InitTiled(c);
    InitCanonical(c);
    RunCanonical(c, Init(c), ops, s);
    RunCanonical(c, Init(c), ops', s');
    TiledAtMostOnce(c, s);
    TiledAtMostOnce(c, s');
    forall k, a | 0 <= k < |s.free|
      ensures a in s.free[k] <==> a in s'.free[k]
    {
      if a in s.free[k] { SameAddressesSameBlocks(s.free, s'.free, k, a); }
      if a in s'.free[k] { SameAddressesSameBlocks(s'.free, s.free, k, a); }
    }
  }

  /** Freeing everything restores the initial free blocks. */
  lemma FreeingAllRestores(c: Config, ops: seq<Op>, s: State)
    requires AlignedBase(c) && Run(Init(c), ops, s) && s.out == []
    ensures SameBlocks(s.free, Init(c).free)
  {
    InitTiled(c);
    RunTiled(c, Init(c), ops, s);
    forall x
      ensures FreeAt(s.free, x) <==> FreeAt(Init(c).free, x)
    {
      assert Balanced(c, s, At(x)) && Balanced(c, Init(c), At(x));
    }
    assert Run(Init(c), [], Init(c));
    FreeBlocksIndependentOfHistory(c, ops, s, [], Init(c));
  }
}
