/** The buddy page allocator: specification functions on free lists, and the
    allocator object whose loops compute them. */
module Buddy {
  import opened Common
  import opened Bits

  /** Bytes in a block of the given order. */
  function Size(k: nat): (s: nat)
    ensures s >= 1
  {
    Pow2(k) * PAGE_SZ
  }

  /** `addr ^ block_size`. */
  function BuddyOf(a: nat, k: nat): nat {
    Xor(a, Size(k))
  }

  type FreeLists = seq<seq<nat>>

  datatype Block = Block(addr: nat, order: nat)

  // ---- allocation -----------------------------------------------------------

  /** The least order at or above `o` with a free block, or `|ls|`. */
  function FirstNonEmpty(ls: FreeLists, o: nat): (r: nat)
    requires o <= |ls|
    ensures o <= r <= |ls|
    ensures r < |ls| ==> ls[r] != []
    ensures forall i :: o <= i < r ==> ls[i] == []
    decreases |ls| - o
  {
    if o == |ls| || ls[o] != [] then o else FirstNonEmpty(ls, o + 1)
  }

  function Push(ls: FreeLists, k: nat, a: nat): (r: FreeLists)
    requires k < |ls|
  {
    ls[k := ls[k] + [a]]
  }

  /** Push the upper halves of the block `addr` of order `o`, down to `order`. */
  function SplitDown(ls: FreeLists, addr: nat, o: nat, order: nat): (r: FreeLists)
    requires order <= o < |ls|
    ensures |r| == |ls|
    decreases o
  {
    if o == order then ls
    else SplitDown(Push(ls, o - 1, addr + Size(o - 1)), addr, o - 1, order)
  }

  function AllocSpec(ls: FreeLists, order: nat): (r: Option<(nat, FreeLists)>)
    ensures r.Some? ==> order < |ls| && |r.value.1| == |ls|
  {
    if order >= |ls| then None
    else
      var o := FirstNonEmpty(ls, order);
      if o == |ls| then None
      else
        var last := |ls[o]| - 1;
        Some((ls[o][last], SplitDown(ls[o := ls[o][..last]], ls[o][last], o, order)))
  }

  // ---- freeing --------------------------------------------------------------

  /** Position of the first `v`, or the length. */
  function IndexOf<T(==)>(l: seq<T>, v: T): (i: nat)
    ensures i <= |l|
    ensures i < |l| ==> l[i] == v
    ensures v in l <==> i < |l|
    ensures v !in l[..i]
  {
    if l == [] then 0 else if l[0] == v then 0 else 1 + IndexOf(l[1..], v)
  }

  function RemoveAt<T>(l: seq<T>, i: nat): (r: seq<T>)
    requires i < |l|
    ensures |r| == |l| - 1
    ensures forall j :: 0 <= j < |r| ==> r[j] == if j < i then l[j] else l[j + 1]
    ensures forall x :: x in r ==> x in l
  {
    l[..i] + l[i + 1..]
  }

  /** Merge upwards while the buddy is free: the remaining lists and the merged block. */
  function CoalesceUp(ls: FreeLists, addr: nat, order: nat): (r: (FreeLists, nat, nat))
    requires order < |ls|
    ensures |r.0| == |ls| && order <= r.2 < |ls|
    ensures r.2 + 1 < |ls| ==> BuddyOf(r.1, r.2) !in r.0[r.2]
    decreases |ls| - order
  {
    if order + 1 < |ls| && BuddyOf(addr, order) in ls[order] then
      var b := BuddyOf(addr, order);
      CoalesceUp(ls[order := RemoveAt(ls[order], IndexOf(ls[order], b))], Min(addr, b), order + 1)
    else (ls, addr, order)
  }

  function FreeSpec(ls: FreeLists, addr: nat, order: nat): (r: FreeLists)
    ensures |r| == |ls|
  {
    if order >= |ls| then ls
    else
      var (rest, a, k) := CoalesceUp(ls, addr, order);
      Push(rest, k, a)
  }

  // ---- construction ---------------------------------------------------------

  /** Carve `remaining` pages from `addr`, largest blocks first. */
  function Carve(ls: FreeLists, addr: nat, remaining: nat, o: nat): (r: FreeLists)
    requires o < |ls|
    ensures |r| == |ls|
    decreases o, remaining
  {
    if remaining >= Pow2(o) then Carve(Push(ls, o, addr), addr + Size(o), remaining - Pow2(o), o)
    else if o == 0 then ls
    else Carve(ls, addr, remaining, o - 1)
  }

  function UsableOrder(totalPages: nat, maxOrder: nat): (u: nat)
    ensures u <= maxOrder
    ensures u < maxOrder ==> totalPages < 2 * Pow2(u)
  {
    Min(Log2Floor(totalPages), maxOrder)
  }

  function InitialLists(base: nat, totalPages: nat, maxOrder: nat): (ls: FreeLists)
    ensures |ls| == maxOrder + 1
  {
    Carve(seq(maxOrder + 1, i => []), base, totalPages, UsableOrder(totalPages, maxOrder))
  }

  // ---- measures: coverage of an address, and pages --------------------------

  /** What is counted over a collection of blocks: how many cover address `x`,
      or how many pages they hold. */
  datatype Measure = At(x: int) | Pages

  function Weigh(m: Measure, a: nat, k: nat): (w: nat) {
    match m
    case At(x) => if a <= x < a + Size(k) then 1 else 0
    case Pages => Pow2(k)
  }

  function WeighList(m: Measure, l: seq<nat>, k: nat): nat {
    if l == [] then 0 else WeighList(m, l[..|l| - 1], k) + Weigh(m, l[|l| - 1], k)
  }

  function WeighFree(m: Measure, ls: FreeLists): nat {
    if ls == [] then 0 else WeighFree(m, ls[..|ls| - 1]) + WeighList(m, ls[|ls| - 1], |ls| - 1)
  }

  function WeighBlocks(m: Measure, bs: seq<Block>): nat {
    if bs == [] then 0
    else WeighBlocks(m, bs[..|bs| - 1]) + Weigh(m, bs[|bs| - 1].addr, bs[|bs| - 1].order)
  }

  /** The allocator object. */
  class BuddyAllocator {
    var freeLists: FreeLists
    var allocatedPages: int
    const maxOrder: nat
    const baseAddr: nat
    const totalPages: nat

    ghost predicate Valid()
      reads this
    {
      |freeLists| == maxOrder + 1
    }

    constructor (base: nat, totalPages: nat, maxOrder: nat)
      ensures Valid()
      ensures freeLists == InitialLists(base, totalPages, maxOrder)
      ensures allocatedPages == 0
      ensures this.maxOrder == maxOrder && baseAddr == base && this.totalPages == totalPages
    {
      var lists: FreeLists := seq(maxOrder + 1, i => []);
      var usable := UsableOrder(totalPages, maxOrder);
      var blockPages := Pow2(usable);
      var addr: nat, remaining: nat := base, totalPages;
      ghost var goal := InitialLists(base, totalPages, maxOrder);
      while remaining >= blockPages
        invariant |lists| == maxOrder + 1
        invariant Carve(lists, addr, remaining, usable) == goal
        decreases remaining
      {
        lists := Push(lists, usable, addr);
        addr := addr + Size(usable);
        remaining := remaining - blockPages;
      }
      var o := usable;
      while o > 0
        invariant 0 <= o <= usable
        invariant |lists| == maxOrder + 1
        invariant remaining < Pow2(o)
        invariant Carve(lists, addr, remaining, o) == goal
        decreases o
      {
        o := o - 1;
        var pages := Pow2(o);
        while remaining >= pages
          invariant |lists| == maxOrder + 1
          invariant Carve(lists, addr, remaining, o) == goal
          decreases remaining
        {
          lists := Push(lists, o, addr);
          addr := addr + Size(o);
          remaining := remaining - pages;
        }
      }
      freeLists := lists;
      allocatedPages := 0;
      this.maxOrder := maxOrder;
      baseAddr := base;
      this.totalPages := totalPages;
    }

    method AllocOrder(order: nat) returns (r: Option<nat>)
      requires Valid()
      modifies this
      ensures Valid()
      ensures r.None? <==> AllocSpec(old(freeLists), order).None?
      ensures r.None? ==> freeLists == old(freeLists) && allocatedPages == old(allocatedPages)
      ensures r.Some? ==> (r.value, freeLists) == AllocSpec(old(freeLists), order).value
                          && allocatedPages == old(allocatedPages) + Pow2(order)
    {
      if order > maxOrder {
        return None;
      }
      var o := order;
      while o <= maxOrder
        invariant order <= o <= maxOrder + 1
        invariant freeLists == old(freeLists) && allocatedPages == old(allocatedPages)
        invariant forall i :: order <= i < o ==> freeLists[i] == []
        decreases maxOrder + 1 - o
      {
        if freeLists[o] != [] {
          assert o == FirstNonEmpty(freeLists, order);
          var last := |freeLists[o]| - 1;
          var addr := freeLists[o][last];
          freeLists := freeLists[o := freeLists[o][..last]];
          ghost var goal := SplitDown(freeLists, addr, o, order);
          var current := o;
          while current > order
            invariant order <= current <= o
            invariant Valid()
            invariant SplitDown(freeLists, addr, current, order) == goal
            invariant allocatedPages == old(allocatedPages)
            decreases current
          {
            current := current - 1;
            freeLists := Push(freeLists, current, addr + Size(current));
          }
          allocatedPages := allocatedPages + Pow2(order);
          return Some(addr);
        }
        o := o + 1;
      }
      return None;
    }

    method FreeOrder(addr: nat, order: nat)
      requires Valid()
      modifies this
      ensures Valid()
      ensures freeLists == FreeSpec(old(freeLists), addr, order)
      ensures allocatedPages == old(allocatedPages) - (if order <= maxOrder then Pow2(order) else 0)
    {
      if order > maxOrder {
        return;
      }
      var current, k := addr, order;
      while k < maxOrder
        invariant order <= k <= maxOrder
        invariant Valid()
        invariant CoalesceUp(freeLists, current, k) == CoalesceUp(old(freeLists), addr, order)
        invariant allocatedPages == old(allocatedPages)
        decreases maxOrder - k
      {
        var buddy := BuddyOf(current, k);
        var pos := IndexOf(freeLists[k], buddy);
        if pos < |freeLists[k]| {
          freeLists := freeLists[k := RemoveAt(freeLists[k], pos)];
          current := Min(current, buddy);
          k := k + 1;
        } else {
          break;
        }
      }
      freeLists := Push(freeLists, k, current);
      allocatedPages := allocatedPages - Pow2(order);
    }

    method FreePagesCount() returns (count: nat)
      requires Valid()
      ensures count == WeighFree(Pages, freeLists)
    {
      count := 0;
      for order := 0 to |freeLists|
        invariant count == WeighFree(Pages, freeLists[..order])
      {
        PagesInList(freeLists[order], order);
        assert freeLists[..order + 1][..order] == freeLists[..order];
        count := count + |freeLists[order]| * Pow2(order);
      }
      assert freeLists[..|freeLists|] == freeLists;
    }
  }

  lemma PagesInList(l: seq<nat>, k: nat)
    ensures WeighList(Pages, l, k) == |l| * Pow2(k)
  {
  }
}
