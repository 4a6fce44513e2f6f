/** The region list of an address space: ordered insertion, binary search, range
    removal and first-fit search. */
module VmMap {
  import opened Common
  import opened Bits

  datatype Region = Region(base: nat, len: nat, flags: nat) {
    function End(): nat {
      base + len
    }

    predicate Contains(addr: nat) {
      base <= addr < base + len
    }

    /** Shares an address with `lo..hi`. */
    predicate Meets(lo: nat, hi: nat) {
      base < hi && lo < base + len
    }

    /** The two tests of `remove_range`: inside the range, or sharing an address with it. */
    predicate Hit(lo: nat, hi: nat) {
      (base >= lo && base + len <= hi) || Meets(lo, hi)
    }
  }

  ghost predicate ByBase(rs: seq<Region>) {
    forall i, j :: 0 <= i < j < |rs| ==> rs[i].base <= rs[j].base
  }

  /** By base, and no region meets another. */
  ghost predicate Apart(rs: seq<Region>) {
    && ByBase(rs)
    && (forall i, j :: 0 <= i < j < |rs| ==> !rs[i].Meets(rs[j].base, rs[j].End()))
  }

  /** Apart, and within the address space. */
  ghost predicate Placed(rs: seq<Region>) {
    Apart(rs) && forall i :: 0 <= i < |rs| ==> rs[i].End() < USIZE_RANGE
  }

  /** Each region ends before the later ones start: what the binary search relies on. An
      empty region may break it and still be apart. */
  ghost predicate Sorted(rs: seq<Region>) {
    forall i, j :: 0 <= i < j < |rs| ==> rs[i].End() <= rs[j].base
  }

  /** An empty region that starts where a non-empty one does. */
  ghost predicate Hides(rs: seq<Region>, r: Region) {
    r.len == 0 && exists i :: 0 <= i < |rs| && rs[i].base == r.base && rs[i].len > 0
  }

  ghost predicate NoneMeets(rs: seq<Region>, lo: nat, hi: nat) {
    forall i :: 0 <= i < |rs| ==> !rs[i].Meets(lo, hi)
  }

  /** The machine's wrapping sum. */
  function Wrap(x: nat): nat {
    x % USIZE_RANGE
  }

  /** The overlap test of `insert`, whose end of the new region wraps. */
  ghost predicate Accepts(rs: seq<Region>, r: Region) {
    NoneMeets(rs, r.base, Wrap(r.End()))
  }

  /** Regions that start at or below `b`. */
  function StartsUpTo(rs: seq<Region>, b: nat): (n: nat)
    ensures n <= |rs|
    ensures forall i :: 0 <= i < n ==> rs[i].base <= b
    ensures n < |rs| ==> rs[n].base > b
  {
    if rs == [] || rs[0].base > b then 0 else 1 + StartsUpTo(rs[1..], b)
  }

  function InsertSpec(rs: seq<Region>, r: Region): seq<Region> {
    var n := StartsUpTo(rs, r.base);
    rs[..n] + [r] + rs[n..]
  }

  /** Binary search between `lo` and `hi`. */
  function Bisect(rs: seq<Region>, addr: nat, lo: nat, hi: nat): Option<Region>
    requires lo <= hi <= |rs|
    decreases hi - lo
  {
    if lo == hi then None
    else
      var mid := lo + (hi - lo) / 2;
      if addr < rs[mid].base then Bisect(rs, addr, lo, mid)
      else if addr >= rs[mid].End() then Bisect(rs, addr, mid + 1, hi)
      else Some(rs[mid])
  }

  /** Linear search, the specification of the binary search. */
  function FirstContaining(rs: seq<Region>, addr: nat): Option<Region> {
    if rs == [] then None
    else if rs[0].Contains(addr) then Some(rs[0])
    else FirstContaining(rs[1..], addr)
  }

  /** The regions a removal of `lo..hi` keeps, in order. */
  function Outside(rs: seq<Region>, lo: nat, hi: nat): (r: seq<Region>)
    ensures |r| <= |rs|
  {
    if rs == [] then []
    else (if rs[0].Hit(lo, hi) then [] else [rs[0]]) + Outside(rs[1..], lo, hi)
  }

  /** An aligned place for `len` bytes, at or above `low`, below the kernel, clear of every
      region. */
  ghost predicate Fits(rs: seq<Region>, low: nat, len: nat, al: nat, c: nat)
    requires al > 0
  {
    c % al == 0 && Free(rs, low, len, c)
  }

  ghost predicate Free(rs: seq<Region>, low: nat, len: nat, c: nat) {
    low <= c && c + len <= KERN_BASE && NoneMeets(rs, c, c + len)
  }

  /** The least place that fits, or nothing when nothing fits. */
  ghost predicate LeastFit(rs: seq<Region>, low: nat, len: nat, al: nat, r: Option<nat>)
    requires al > 0
  {
    && (r.Some? ==> Fits(rs, low, len, al, r.value))
    && (forall c: nat :: Fits(rs, low, len, al, c) ==> r.Some? && r.value <= c)
  }

  class Map {
    var regions: seq<Region>
    var brk: nat
    var mmapBase: nat

    constructor ()
      ensures regions == [] && brk == 0x0040_0000 && mmapBase == 0x7000_0000
    {
      regions, brk, mmapBase := [], 0x0040_0000, 0x7000_0000;
    }

    method Insert(region: Region) returns (ok: bool)
      requires ByBase(regions)
      modifies this`regions
      ensures ok <==> Accepts(old(regions), region)
      ensures regions == if ok then InsertSpec(old(regions), region) else old(regions)
    {
      var rb := region.base;
      var re := Wrap(region.base + region.len);
      var idx := 0;
      while idx < |regions|
        invariant 0 <= idx <= |regions|
        invariant forall i :: 0 <= i < idx ==> !regions[i].Meets(rb, re) && regions[i].base <= rb
      {
        var eb := regions[idx].base;
        var ee := eb + regions[idx].len;
        if rb < ee && eb < re {
          assert regions[idx].Meets(rb, re);
          return false;
        }
        if eb > rb {
          break;
        }
        idx := idx + 1;
      }
      ScanStops(regions, rb, re, idx);
      regions := regions[..idx] + [region] + regions[idx..];
      return true;
    }

    method Find(addr: nat) returns (r: Option<Region>)
      ensures r == Bisect(regions, addr, 0, |regions|)
    {
      var n := |regions|;
      if n == 0 {
        return None;
      }
      var lo, hi := 0, n;
      while lo < hi
        invariant 0 <= lo <= hi <= n
        invariant Bisect(regions, addr, lo, hi) == Bisect(regions, addr, 0, n)
      {
        var mid := lo + (hi - lo) / 2;
        var m := regions[mid];
        if addr < m.base {
          hi := mid;
        } else if addr >= m.base + m.len {
          lo := mid + 1;
        } else {
          return Some(m);
        }
      }
      return None;
    }

    method RemoveRange(base: nat, len: nat) returns (count: nat)
      modifies this`regions
      ensures regions == Outside(old(regions), base, Wrap(base + len))
      ensures count == |old(regions)| - |regions|
    {
      var end := Wrap(base + len);
      var sizeBefore := |regions|;
      var i := 0;
      ghost var kept, rest := [], regions;
      while i < |regions|
        invariant i == |kept| && regions == kept + rest && |regions| <= sizeBefore
        invariant kept + Outside(rest, base, end) == Outside(old(regions), base, end)
        decreases |regions| - i
      {
        SplitAtHead(kept, rest);
        OutsideHead(kept, rest, base, end);
        var rb := regions[i].base;
        var re := rb + regions[i].len;
        if rb >= base && re <= end {
          regions := regions[..i] + regions[i + 1..];
        } else if rb < end && re > base {
          regions := regions[..i] + regions[i + 1..];
        } else {
          i := i + 1;
          kept := kept + [rest[0]];
        }
        rest := rest[1..];
      }
      count := sizeBefore - |regions|;
    }

    /** First fit from `mmapBase`; `align` of 0 or 1 means page alignment. Any alignment
        gets a free place; a power of two gets the least aligned one, and one if any fits. */
    method FindFree(len: nat, align: nat) returns (r: Option<nat>)
      requires len < USIZE_RANGE && mmapBase + Granule(align) <= USIZE_RANGE
      requires forall i :: 0 <= i < |regions| && regions[i].base < KERN_BASE && regions[i].End() > mmapBase
                 ==> regions[i].End() + Granule(align) <= USIZE_RANGE
      ensures len == 0 ==> r == Some(mmapBase)
      ensures len > 0 && r.Some? ==> Free(regions, mmapBase, len, r.value)
      ensures len > 0 && align > 1 && IsPow2(align) ==> LeastFit(regions, mmapBase, len, align, r)
      ensures len > 0 && align <= 1 ==> LeastFit(regions, mmapBase, len, 4096, r)
    {
      assert IsPow2(PAGE_SZ) by { Pow2Twelve(); }
      if len == 0 {
        return Some(mmapBase);
      }
      var al := Granule(align);
      var cand: nat := AlignUp(mmapBase, al);
      StartSearch(regions, mmapBase, len, al);
      var iters := 0;
      var maxIters := |regions| + 2;
      while iters < maxIters
        invariant iters <= |regions| && Searching(regions, mmapBase, len, al, cand, iters)
      {
        if Wrap(cand + len) > KERN_BASE || Wrap(cand + len) < cand {
          NoRoomAbove(regions, mmapBase, len, al, cand, iters);
          return None;
        }
        var j := FirstConflict(cand, cand + len);
        if j == |regions| {
          return Some(cand);
        }
        SkipConflict(regions, mmapBase, len, al, cand, iters, j);
        cand := AlignUp(regions[j].End(), al);
        iters := iters + 1;
      }
      return None;
    }

    method FirstConflict(lo: nat, hi: nat) returns (j: nat)
      ensures j <= |regions| && (j < |regions| ==> regions[j].Meets(lo, hi))
      ensures forall i :: 0 <= i < j ==> !regions[i].Meets(lo, hi)
    {
      j := 0;
      while j < |regions|
        invariant 0 <= j <= |regions|
        invariant forall i :: 0 <= i < j ==> !regions[i].Meets(lo, hi)
      {
        if regions[j].base < hi && lo < regions[j].End() {
          return;
        }
        j := j + 1;
      }
    }
  }

  /** How many regions a candidate has behind it. */
  ghost function Behind(rs: seq<Region>, cand: nat): (n: nat)
    ensures n <= |rs|
  {
    if rs == [] then 0 else (if rs[0].End() <= cand then 1 else 0) + Behind(rs[1..], cand)
  }

  /** The state of the first-fit search after `iters` conflicts: nothing below the
      candidate fits, and at least `iters` regions are behind it. */
  ghost predicate Searching(rs: seq<Region>, low: nat, len: nat, al: nat, cand: nat, iters: nat)
    requires al > 0
  {
    && low <= cand < USIZE_RANGE
    && iters <= Behind(rs, cand)
    && (IsPow2(al) ==> cand % al == 0 && forall c: nat :: Fits(rs, low, len, al, c) ==> cand <= c)
  }

  function Granule(align: nat): (al: nat)
    ensures al > 0
  {
    if align > 1 then align else PAGE_SZ
  }

  // ---- lemmas ---------------------------------------------------------------

  /** The list `kept + rest` with its element at `|kept|` removed or moved to `kept`. */
  lemma SplitAtHead(kept: seq<Region>, rest: seq<Region>)
    requires rest != []
    ensures (kept + rest)[|kept|] == rest[0]
    ensures (kept + rest)[..|kept|] + (kept + rest)[|kept| + 1..] == kept + rest[1..]
    ensures kept + rest == (kept + [rest[0]]) + rest[1..]
  {
  }

  lemma OutsideHead(kept: seq<Region>, rest: seq<Region>, lo: nat, hi: nat)
    requires rest != []
    ensures kept + Outside(rest, lo, hi)
         == (if rest[0].Hit(lo, hi) then kept else kept + [rest[0]]) + Outside(rest[1..], lo, hi)
  {
    var tail := Outside(rest[1..], lo, hi);
    if rest[0].Hit(lo, hi) {
      assert Outside(rest, lo, hi) == [] + tail == tail;
    } else {
      assert kept + ([rest[0]] + tail) == (kept + [rest[0]]) + tail;
    }
  }

  /** On ordered disjoint regions the binary search is the linear one. */
  lemma {:induction false} BisectIsLinear(rs: seq<Region>, addr: nat, lo: nat, hi: nat)
    requires Sorted(rs) && lo <= hi <= |rs|
    requires forall i :: 0 <= i < lo ==> rs[i].End() <= addr
    requires forall i :: hi <= i < |rs| ==> addr < rs[i].base
    ensures Bisect(rs, addr, lo, hi) == FirstContaining(rs, addr)
    decreases hi - lo
  {
    if lo == hi {
      NothingContains(rs, addr);
    } else {
      var mid := lo + (hi - lo) / 2;
      if addr < rs[mid].base {
        StartsAbove(rs, addr, mid);
        BisectIsLinear(rs, addr, lo, mid);
      } else if addr >= rs[mid].End() {
        EndsBelow(rs, addr, mid);
        BisectIsLinear(rs, addr, mid + 1, hi);
      } else {
        OnlyContains(rs, addr, mid);
      }
    }
  }

  lemma StartsAbove(rs: seq<Region>, addr: nat, k: nat)
    requires Sorted(rs) && k < |rs| && addr < rs[k].base
    ensures forall i :: k <= i < |rs| ==> addr < rs[i].base
  {
    assert forall i :: k < i < |rs| ==> rs[k].End() <= rs[i].base;
  }

  lemma EndsBelow(rs: seq<Region>, addr: nat, k: nat)
    requires Sorted(rs) && k < |rs| && rs[k].End() <= addr
    ensures forall i :: 0 <= i <= k ==> rs[i].End() <= addr
  {
    assert forall i :: 0 <= i < k ==> rs[i].End() <= rs[k].base;
  }

  lemma {:induction false} NothingContains(rs: seq<Region>, addr: nat)
    ensures FirstContaining(rs, addr).None? <==> forall i :: 0 <= i < |rs| ==> !rs[i].Contains(addr)
  {
    if rs != [] {
      NothingContains(rs[1..], addr);
      assert forall i :: 1 <= i < |rs| ==> rs[i] == rs[1..][i - 1];
    }
  }

  lemma {:induction false} OnlyContains(rs: seq<Region>, addr: nat, k: nat)
    requires Sorted(rs) && k < |rs| && rs[k].Contains(addr)
    ensures FirstContaining(rs, addr) == Some(rs[k])
  {
    if k > 0 {
      assert rs[0].End() <= rs[k].base;
      OnlyContains(rs[1..], addr, k - 1);
    }
  }

  // ---- the binary search where regions are only apart -----------------------

  /** The probes of a binary search for index `k` that turns right below `k` and left above
      `m`, and is lost between the two, meet `k`. */
  predicate Reaches(lo: nat, hi: nat, k: nat, m: nat)
    requires lo <= k <= m < hi
    decreases hi - lo
  {
    var mid := lo + (hi - lo) / 2;
    if mid < k then Reaches(mid + 1, hi, k, m)
    else if mid > m then Reaches(lo, mid, k, m)
    else mid == k
  }

  /** The search for an address of region `k` meets it: regions that start where it does and
      come after it are the ones that can hide it. */
  predicate Reached(rs: seq<Region>, k: nat)
    requires k < |rs|
  {
    var n := StartsUpTo(rs, rs[k].base);
    k < n && Reaches(0, |rs|, k, n - 1)
  }

  lemma {:induction false} NothingFound(rs: seq<Region>, addr: nat, lo: nat, hi: nat)
    requires lo <= hi <= |rs| && forall i :: lo <= i < hi ==> !rs[i].Contains(addr)
    ensures Bisect(rs, addr, lo, hi) == None
    decreases hi - lo
  {
    if lo < hi {
      var mid := lo + (hi - lo) / 2;
      assert !rs[mid].Contains(addr);
      NothingFound(rs, addr, lo, mid);
      NothingFound(rs, addr, mid + 1, hi);
    }
  }

  /** Where the regions stand to an address of region `k`: those before it, and those up to
      `m` that start where it does, end at or below the address; the rest start above. */
  ghost predicate Surrounded(rs: seq<Region>, addr: nat, k: nat, m: nat)
    requires k <= m < |rs|
  {
    && rs[k].Contains(addr)
    && (forall i :: 0 <= i <= m && i != k ==> rs[i].End() <= addr)
    && (forall i :: m < i < |rs| ==> addr < rs[i].base)
  }

  lemma BeforeAndAfter(rs: seq<Region>, addr: nat, k: nat, i: nat)
    requires Apart(rs) && k < |rs| && i < |rs| && rs[k].Contains(addr)
    ensures i < k ==> rs[i].End() <= addr
    ensures i > k && rs[i].base > rs[k].base ==> addr < rs[i].base
    ensures i > k && rs[i].base <= rs[k].base ==> rs[i].End() <= addr
  {
    if i < k {
      assert !rs[i].Meets(rs[k].base, rs[k].End()) && rs[i].base <= rs[k].base;
    } else if i > k {
      assert !rs[k].Meets(rs[i].base, rs[i].End()) && rs[k].base <= rs[i].base;
    }
  }

  lemma ApartSurrounds(rs: seq<Region>, addr: nat, k: nat)
    requires Apart(rs) && k < |rs| && rs[k].Contains(addr)
    ensures var n := StartsUpTo(rs, rs[k].base); k < n && Surrounded(rs, addr, k, n - 1)
  {
    var n := StartsUpTo(rs, rs[k].base);
    StartsPast(rs, rs[k].base, k);
    forall i | 0 <= i < n && i != k
      ensures rs[i].End() <= addr
    {
      BeforeAndAfter(rs, addr, k, i);
    }
    forall i | n <= i < |rs|
      ensures addr < rs[i].base
    {
      AboveStarts(rs, rs[k].base, i);
      BeforeAndAfter(rs, addr, k, i);
    }
  }

  lemma AboveStarts(rs: seq<Region>, b: nat, i: nat)
    requires ByBase(rs) && StartsUpTo(rs, b) <= i < |rs|
    ensures rs[i].base > b
  {
    if rs[i].base <= b {
      StartsPast(rs, b, i);
    }
  }

  lemma {:induction false} BisectIff(rs: seq<Region>, addr: nat, lo: nat, hi: nat, k: nat, m: nat)
    requires lo <= k <= m < hi <= |rs| && Surrounded(rs, addr, k, m)
    ensures Bisect(rs, addr, lo, hi) == if Reaches(lo, hi, k, m) then Some(rs[k]) else None
    decreases hi - lo
  {
    var mid := lo + (hi - lo) / 2;
    if mid < k {
      assert rs[mid].End() <= addr;
      BisectIff(rs, addr, mid + 1, hi, k, m);
    } else if mid > m {
      assert addr < rs[mid].base;
      BisectIff(rs, addr, lo, mid, k, m);
    } else if mid > k {
      assert rs[mid].End() <= addr;
      NothingFound(rs, addr, mid + 1, hi);
    }
  }

  /** For regions apart and an address of region `k`: the binary search finds `k` if and only
      if its probes reach it, and nothing otherwise; a linear scan finds `k`. */
  lemma LookupIff(rs: seq<Region>, addr: nat, k: nat)
    requires Apart(rs) && k < |rs| && rs[k].Contains(addr)
    ensures Bisect(rs, addr, 0, |rs|) == if Reached(rs, k) then Some(rs[k]) else None
    ensures FirstContaining(rs, addr) == Some(rs[k])
    ensures forall i :: 0 <= i < |rs| && rs[i].Contains(addr) ==> i == k
  {
    ApartSurrounds(rs, addr, k);
    SurroundedLookup(rs, addr, k, StartsUpTo(rs, rs[k].base) - 1);
  }

  lemma SurroundedLookup(rs: seq<Region>, addr: nat, k: nat, m: nat)
    requires k <= m < |rs| && Surrounded(rs, addr, k, m)
    ensures Bisect(rs, addr, 0, |rs|) == if Reaches(0, |rs|, k, m) then Some(rs[k]) else None
    ensures FirstContaining(rs, addr) == Some(rs[k])
    ensures forall i :: 0 <= i < |rs| && rs[i].Contains(addr) ==> i == k
  {
    BisectIff(rs, addr, 0, |rs|, k, m);
    FirstIs(rs, addr, k);
  }

  lemma {:induction false} FirstIs(rs: seq<Region>, addr: nat, k: nat)
    requires k < |rs| && rs[k].Contains(addr) && forall i :: 0 <= i < k ==> !rs[i].Contains(addr)
    ensures FirstContaining(rs, addr) == Some(rs[k])
  {
    if k > 0 {
      assert !rs[0].Contains(addr);
      FirstIs(rs[1..], addr, k - 1);
    }
  }

  /** The scan may stop at the first region that starts above: nothing after it meets. */
  lemma ScanStops(rs: seq<Region>, lo: nat, hi: nat, idx: nat)
    requires ByBase(rs) && idx <= |rs|
    requires forall i :: 0 <= i < idx ==> !rs[i].Meets(lo, hi) && rs[i].base <= lo
    requires idx < |rs| ==> rs[idx].base > lo && !rs[idx].Meets(lo, hi)
    ensures NoneMeets(rs, lo, hi) && StartsUpTo(rs, lo) == idx
  {
    forall i | idx < i < |rs|
      ensures !rs[i].Meets(lo, hi)
    {
      assert rs[idx].base <= rs[i].base;
    }
    StartsUnique(rs, lo, idx);
  }

  lemma StartsUnique(rs: seq<Region>, b: nat, n: nat)
    requires n <= |rs| && (forall i :: 0 <= i < n ==> rs[i].base <= b) && (n < |rs| ==> rs[n].base > b)
    ensures StartsUpTo(rs, b) == n
  {
    var m := StartsUpTo(rs, b);
    assert !(m < n) && !(n < m);
  }

  lemma StartSearch(rs: seq<Region>, low: nat, len: nat, al: nat)
    requires al > 0 && low + al <= USIZE_RANGE
    ensures Searching(rs, low, len, al, AlignUp(low, al), 0)
  {
    AlignUpBounds(low, al);
    if IsPow2(al) {
      AlignUpLeast(low, al);
    }
  }

  lemma NoRoomAbove(rs: seq<Region>, low: nat, len: nat, al: nat, cand: nat, iters: nat)
    requires al > 0 && Searching(rs, low, len, al, cand, iters)
    requires len < USIZE_RANGE && (Wrap(cand + len) > KERN_BASE || Wrap(cand + len) < cand)
    ensures IsPow2(al) ==> LeastFit(rs, low, len, al, None)
  {
    assert cand + len > KERN_BASE;
  }

  /** After a conflict with region `j`, no place before its end fits: the search loses
      nothing by jumping there, and has one more region behind it. */
  lemma SkipConflict(rs: seq<Region>, low: nat, len: nat, al: nat, cand: nat, iters: nat, j: nat)
    requires al > 0 && Searching(rs, low, len, al, cand, iters)
    requires j < |rs| && rs[j].Meets(cand, cand + len) && rs[j].End() + al <= USIZE_RANGE
    ensures iters < |rs| && Searching(rs, low, len, al, AlignUp(rs[j].End(), al), iters + 1)
  {
    var next := AlignUp(rs[j].End(), al);
    AlignUpBounds(rs[j].End(), al);
    OneMoreBehind(rs, cand, next, j);
    if IsPow2(al) {
      AlignUpLeast(rs[j].End(), al);
      forall c: nat | Fits(rs, low, len, al, c)
        ensures next <= c
      {
        assert !rs[j].Meets(c, c + len);
      }
    }
  }

  lemma {:induction false} OneMoreBehind(rs: seq<Region>, cand: nat, next: nat, j: nat)
    requires j < |rs| && cand < rs[j].End() <= next
    ensures Behind(rs, cand) < Behind(rs, next)
  {
    if j > 0 {
      OneMoreBehind(rs[1..], cand, next, j - 1);
    } else {
      BehindGrows(rs[1..], cand, next);
    }
  }

  lemma {:induction false} BehindGrows(rs: seq<Region>, cand: nat, next: nat)
    requires cand <= next
    ensures Behind(rs, cand) <= Behind(rs, next)
  {
    if rs != [] {
      BehindGrows(rs[1..], cand, next);
    }
  }

  lemma {:induction false} OutsideMembers(rs: seq<Region>, lo: nat, hi: nat)
    ensures forall r :: r in Outside(rs, lo, hi) <==> r in rs && !r.Hit(lo, hi)
  {
    if rs != [] {
      OutsideMembers(rs[1..], lo, hi);
      assert rs == [rs[0]] + rs[1..];
    }
  }

  /** Removing a range deletes exactly the regions that share an address with it and the
      empty ones within its bounds. The order is kept. */
  lemma OutsideExact(rs: seq<Region>, lo: nat, hi: nat)
    ensures forall r :: r in Outside(rs, lo, hi) <==> r in rs && !r.Meets(lo, hi) && !(r.len == 0 && lo <= r.base <= hi)
    ensures Sorted(rs) ==> Sorted(Outside(rs, lo, hi))
    ensures Apart(rs) ==> Apart(Outside(rs, lo, hi))
  {
    OutsideMembers(rs, lo, hi);
    if Sorted(rs) {
      OutsideOrder(rs, lo, hi);
    }
    if Apart(rs) {
      OutsideApart(rs, lo, hi);
    }
  }

  lemma {:induction false} OutsideApart(rs: seq<Region>, lo: nat, hi: nat)
    requires Apart(rs)
    ensures Apart(Outside(rs, lo, hi))
  {
    if rs != [] {
      OutsideApart(rs[1..], lo, hi);
      OutsideMembers(rs[1..], lo, hi);
      var tail := Outside(rs[1..], lo, hi);
      forall i | 0 <= i < |tail|
        ensures rs[0].base <= tail[i].base && !rs[0].Meets(tail[i].base, tail[i].End())
      {
        assert tail[i] in rs[1..];
      }
      assert Outside(rs, lo, hi) == if rs[0].Hit(lo, hi) then tail else [rs[0]] + tail;
    }
  }

  lemma {:induction false} OutsideOrder(rs: seq<Region>, lo: nat, hi: nat)
    requires Sorted(rs)
    ensures Sorted(Outside(rs, lo, hi))
  {
    if rs != [] {
      OutsideOrder(rs[1..], lo, hi);
      OutsideMembers(rs[1..], lo, hi);
      var tail := Outside(rs[1..], lo, hi);
      forall i | 0 <= i < |tail|
        ensures rs[0].End() <= tail[i].base
      {
        assert tail[i] in rs[1..];
      }
      JoinSorted([rs[0]], tail);
      assert Outside(rs, lo, hi) == if rs[0].Hit(lo, hi) then tail else [rs[0]] + tail;
    }
  }

  /** Every region of `a` before every region of `b`, none meeting. */
  ghost predicate Below(a: seq<Region>, b: seq<Region>) {
    forall i, j :: 0 <= i < |a| && 0 <= j < |b| ==> a[i].base <= b[j].base && !a[i].Meets(b[j].base, b[j].End())
  }

  lemma JoinApart(a: seq<Region>, b: seq<Region>)
    requires Apart(a) && Apart(b) && Below(a, b)
    ensures Apart(a + b)
  {
  }

  lemma SplitApart(rs: seq<Region>, n: nat)
    requires Apart(rs) && n <= |rs|
    ensures Apart(rs[..n]) && Apart(rs[n..]) && Below(rs[..n], rs[n..])
  {
  }

  lemma BelowBoth(a: seq<Region>, r: Region, b: seq<Region>)
    requires Below(a, [r]) && Below(a, b)
    ensures Below(a, [r] + b)
  {
    var both := [r] + b;
    forall i, j | 0 <= i < |a| && 0 <= j < |both|
      ensures a[i].base <= both[j].base && !a[i].Meets(both[j].base, both[j].End())
    {
      assert both[j] == if j == 0 then [r][0] else b[j - 1];
    }
  }

  lemma InsertApart(rs: seq<Region>, r: Region)
    requires Apart(rs) && NoneMeets(rs, r.base, r.End())
    ensures Apart(InsertSpec(rs, r))
  {
    var n := StartsUpTo(rs, r.base);
    SplitApart(rs, n);
    UpperApart(rs, r, n);
    LowerApart(rs, r, n);
    InsertBetween(rs[..n], r, rs[n..]);
  }

  lemma InsertBetween(low: seq<Region>, r: Region, high: seq<Region>)
    requires Apart(low) && Apart(high) && Below(low, high) && Below(low, [r]) && Below([r], high)
    ensures Apart(low + [r] + high)
  {
    JoinApart([r], high);
    BelowBoth(low, r, high);
    JoinApart(low, [r] + high);
    assert low + ([r] + high) == low + [r] + high;
  }

  lemma LowerApart(rs: seq<Region>, r: Region, n: nat)
    requires NoneMeets(rs, r.base, r.End()) && n <= |rs| && forall i :: 0 <= i < n ==> rs[i].base <= r.base
    ensures Below(rs[..n], [r])
  {
    forall i | 0 <= i < n
      ensures rs[..n][i].base <= r.base && !rs[..n][i].Meets(r.base, r.End())
    {
      assert rs[..n][i] == rs[i];
    }
  }

  lemma UpperApart(rs: seq<Region>, r: Region, n: nat)
    requires ByBase(rs) && NoneMeets(rs, r.base, r.End()) && n <= |rs|
    requires n < |rs| ==> rs[n].base > r.base
    ensures Below([r], rs[n..])
  {
    forall i | n <= i < |rs|
      ensures r.base <= rs[i].base && !r.Meets(rs[i].base, rs[i].End())
    {
      assert !rs[i].Meets(r.base, r.End());
      assert i > n ==> rs[n].base <= rs[i].base;
    }
  }

  /** An insertion keeps the regions apart if and only if the new one, taken up to its true
      end, meets none. */
  lemma InsertApartIff(rs: seq<Region>, r: Region)
    requires Apart(rs)
    ensures Apart(InsertSpec(rs, r)) <==> NoneMeets(rs, r.base, r.End())
  {
    if NoneMeets(rs, r.base, r.End()) {
      InsertApart(rs, r);
    } else {
      var i :| 0 <= i < |rs| && rs[i].Meets(r.base, r.End());
      MeetingNotApart(rs, r, i);
    }
  }

  lemma MeetingNotApart(rs: seq<Region>, r: Region, i: nat)
    requires i < |rs| && rs[i].Meets(r.base, r.End())
    ensures !Apart(InsertSpec(rs, r))
  {
    var n := StartsUpTo(rs, r.base);
    var all := InsertSpec(rs, r);
    Shifted(rs, r, n, n);
    if i < n {
      Shifted(rs, r, n, i);
      assert all[i].Meets(all[n].base, all[n].End());
    } else {
      Shifted(rs, r, n, i + 1);
      assert all[n].Meets(all[i + 1].base, all[i + 1].End());
    }
  }

  /** The end of `r` wraps, and a region reaches above its start. */
  ghost predicate WrapsOver(rs: seq<Region>, r: Region) {
    r.End() >= USIZE_RANGE && exists i :: 0 <= i < |rs| && rs[i].End() > r.base
  }

  /** What `insert` accepts overlaps a region if and only if its end wraps and some region
      reaches above its start. */
  lemma AcceptedMeetsIff(rs: seq<Region>, r: Region)
    requires Accepts(rs, r) && forall i :: 0 <= i < |rs| ==> rs[i].base < USIZE_RANGE
    ensures !NoneMeets(rs, r.base, r.End()) <==> WrapsOver(rs, r)
  {
    if WrapsOver(rs, r) {
      var i :| 0 <= i < |rs| && rs[i].End() > r.base;
      assert rs[i].Meets(r.base, r.End());
    }
  }

  /** An accepted insertion keeps the regions apart and in the address space if and only if
      the end of the new one does not wrap. */
  lemma InsertPlacedIff(rs: seq<Region>, r: Region)
    requires Placed(rs) && Accepts(rs, r)
    ensures Placed(InsertSpec(rs, r)) <==> r.End() < USIZE_RANGE
  {
    var n := StartsUpTo(rs, r.base);
    var all := InsertSpec(rs, r);
    assert all[n] == r;
    if r.End() < USIZE_RANGE {
      InsertApart(rs, r);
      forall i | 0 <= i < |all|
        ensures all[i].End() < USIZE_RANGE
      {
        Shifted(rs, r, n, i);
      }
    }
  }

  lemma OutsidePlaced(rs: seq<Region>, lo: nat, hi: nat)
    requires Placed(rs)
    ensures Placed(Outside(rs, lo, hi))
  {
    OutsideApart(rs, lo, hi);
    OutsideMembers(rs, lo, hi);
    var kept := Outside(rs, lo, hi);
    forall i | 0 <= i < |kept|
      ensures kept[i].End() < USIZE_RANGE
    {
      assert kept[i] in rs;
    }
  }

  lemma {:induction false} OutsideByBase(rs: seq<Region>, lo: nat, hi: nat)
    requires ByBase(rs)
    ensures ByBase(Outside(rs, lo, hi))
  {
    if rs != [] {
      OutsideByBase(rs[1..], lo, hi);
      OutsideMembers(rs[1..], lo, hi);
      var tail := Outside(rs[1..], lo, hi);
      forall i | 0 <= i < |tail|
        ensures rs[0].base <= tail[i].base
      {
        assert tail[i] in rs[1..];
      }
      assert Outside(rs, lo, hi) == if rs[0].Hit(lo, hi) then tail else [rs[0]] + tail;
    }
  }

  /** An accepted insertion keeps the order of the binary search if and only if the new
      region is not an empty one at the start of another. */
  lemma InsertSortedIff(rs: seq<Region>, r: Region)
    requires Sorted(rs) && NoneMeets(rs, r.base, r.End())
    ensures Sorted(InsertSpec(rs, r)) <==> !Hides(rs, r)
  {
    if Hides(rs, r) {
      var i :| 0 <= i < |rs| && rs[i].base == r.base && rs[i].len > 0;
      HiddenComesFirst(rs, r, i);
    } else {
      InsertSorted(rs, r);
    }
  }

  lemma SortedByBase(rs: seq<Region>)
    requires Sorted(rs)
    ensures ByBase(rs)
  {
    forall i, j | 0 <= i < j < |rs|
      ensures rs[i].base <= rs[j].base
    {
      assert rs[i].End() <= rs[j].base;
    }
  }

  lemma {:induction false} StartsPast(rs: seq<Region>, b: nat, i: nat)
    requires ByBase(rs) && i < |rs| && rs[i].base <= b
    ensures i < StartsUpTo(rs, b)
  {
    if i > 0 {
      assert rs[0].base <= rs[i].base;
      StartsPast(rs[1..], b, i - 1);
    }
  }

  lemma HiddenComesFirst(rs: seq<Region>, r: Region, i: nat)
    requires Sorted(rs) && i < |rs| && rs[i].base == r.base && rs[i].len > 0
    ensures !Sorted(InsertSpec(rs, r))
  {
    SortedByBase(rs);
    StartsPast(rs, r.base, i);
    var all := InsertSpec(rs, r);
    assert all[i] == rs[i] && all[StartsUpTo(rs, r.base)] == r;
  }

  lemma InsertSorted(rs: seq<Region>, r: Region)
    requires Sorted(rs) && !Hides(rs, r) && NoneMeets(rs, r.base, r.End())
    ensures Sorted(InsertSpec(rs, r))
  {
    var n := StartsUpTo(rs, r.base);
    var low, high := rs[..n], rs[n..];
    LowerEnds(rs, r, n);
    UpperStarts(rs, r, n);
    JoinSorted([r], high);
    JoinSorted(low, [r] + high);
    assert low + ([r] + high) == InsertSpec(rs, r);
  }

  lemma LowerEnds(rs: seq<Region>, r: Region, n: nat)
    requires !Hides(rs, r) && NoneMeets(rs, r.base, r.End()) && n <= |rs|
    requires forall i :: 0 <= i < n ==> rs[i].base <= r.base
    ensures forall i :: 0 <= i < n ==> rs[i].End() <= r.base
  {
    forall i | 0 <= i < n
      ensures rs[i].End() <= r.base
    {
      assert !rs[i].Meets(r.base, r.End()) && rs[i].base <= r.base;
    }
  }

  lemma UpperStarts(rs: seq<Region>, r: Region, n: nat)
    requires Sorted(rs) && NoneMeets(rs, r.base, r.End()) && n <= |rs|
    requires n < |rs| ==> rs[n].base > r.base
    ensures forall i :: n <= i < |rs| ==> r.End() <= rs[i].base
  {
    if n < |rs| {
      assert !rs[n].Meets(r.base, r.End());
      assert r.End() <= rs[n].base;
      assert forall i :: n < i < |rs| ==> rs[n].End() <= rs[i].base;
    }
  }

  lemma InsertAddsOne(rs: seq<Region>, r: Region)
    ensures multiset(InsertSpec(rs, r)) == multiset(rs) + multiset{r}
  {
    var n := StartsUpTo(rs, r.base);
    assert rs == rs[..n] + rs[n..];
  }

  lemma {:induction false} OutsideCounts(rs: seq<Region>, lo: nat, hi: nat, r: Region)
    ensures multiset(Outside(rs, lo, hi))[r] == if r.Hit(lo, hi) then 0 else multiset(rs)[r]
  {
    if rs != [] {
      OutsideCounts(rs[1..], lo, hi, r);
      assert rs == [rs[0]] + rs[1..];
      var tail := Outside(rs[1..], lo, hi);
      assert Outside(rs, lo, hi) == if rs[0].Hit(lo, hi) then tail else [rs[0]] + tail;
    }
  }

  lemma InsertByBase(rs: seq<Region>, r: Region)
    requires ByBase(rs)
    ensures ByBase(InsertSpec(rs, r))
  {
    var n := StartsUpTo(rs, r.base);
    var all := InsertSpec(rs, r);
    forall i, j | 0 <= i < j < |all|
      ensures all[i].base <= all[j].base
    {
      Shifted(rs, r, n, i);
      Shifted(rs, r, n, j);
      if j > n {
        AboveStarts(rs, r.base, j - 1);
      }
    }
  }

  /** Where the elements stand after an insertion at `n`. */
  lemma Shifted(rs: seq<Region>, r: Region, n: nat, i: nat)
    requires n <= |rs| && i <= |rs|
    ensures (rs[..n] + [r] + rs[n..])[i] == if i < n then rs[i] else if i == n then r else rs[i - 1]
  {
  }

  lemma JoinSorted(a: seq<Region>, b: seq<Region>)
    requires Sorted(a) && Sorted(b)
    requires forall i, j :: 0 <= i < |a| && 0 <= j < |b| ==> a[i].End() <= b[j].base
    ensures Sorted(a + b)
  {
  }
}
