/** The frame bitmap: first free frame, and the two searches for a contiguous run. */
module FramePool {
  import opened Common
  import opened Bits

  /** The frames `p..p + sz` exist and are free. */
  predicate FreeRun(s: seq<bool>, p: nat, sz: nat) {
    p + sz <= |s| && forall i :: p <= i < p + sz ==> s[i]
  }

  /** The least aligned start, at or above `q`, of a free run: every start is tried. */
  function FirstFit(s: seq<bool>, sz: nat, al: nat, q: nat): (r: Option<nat>)
    requires al > 0
    ensures r.Some? ==> q <= r.value && r.value % al == 0 && FreeRun(s, r.value, sz)
    ensures forall p: nat :: q <= p && (r.Some? ==> p < r.value) && p % al == 0 ==> !FreeRun(s, p, sz)
    decreases |s| - q
  {
    if q + sz > |s| then None
    else if q % al == 0 && FreeRun(s, q, sz) then Some(q)
    else if q < |s| then FirstFit(s, sz, al, q + 1)
    else None
  }

  /** The bitmap with the frames `p..p + sz` taken. */
  function Taken(s: seq<bool>, p: nat, sz: nat): (r: seq<bool>)
    ensures |r| == |s|
    ensures forall i :: 0 <= i < |s| ==> r[i] == (s[i] && !(p <= i < p + sz))
  {
    seq(|s|, i requires 0 <= i < |s| => s[i] && !(p <= i < p + sz))
  }

  function FirstFree(s: seq<bool>): (r: Option<nat>)
    ensures r.Some? ==> r.value < |s| && s[r.value] && forall i :: 0 <= i < r.value ==> !s[i]
    ensures r.None? ==> forall i :: 0 <= i < |s| ==> !s[i]
  {
    if s == [] then None
    else if s[0] then Some(0)
    else
      var r := FirstFree(s[1..]);
      assert forall i :: 1 <= i < |s| ==> s[i] == s[1..][i - 1];
      if r.Some? then Some(r.value + 1) else None
  }

  class Pool {
    const slots: array<bool>

    constructor (n: nat)
      ensures slots.Length == n && fresh(slots)
      ensures forall i :: 0 <= i < n ==> slots[i]
    {
      slots := new bool[n](i => true);
    }

    method GetInner() returns (r: Option<nat>)
      modifies slots
      ensures r == FirstFree(old(slots[..]))
      ensures slots[..] == if r.Some? then Taken(old(slots[..]), r.value, 1) else old(slots[..])
    {
      for i := 0 to slots.Length
        invariant forall j :: 0 <= j < i ==> !slots[j]
        invariant slots[..] == old(slots[..])
      {
        if slots[i] {
          FirstFreeAt(slots[..], i);
          slots[i] := false;
          return Some(i);
        }
      }
      FirstFreeAt(slots[..], slots.Length);
      return None;
    }

    /** The stepwise search: every multiple of the alignment in turn. */
    method GetContig(sz: nat, alignLog2: nat) returns (r: Option<nat>)
      modifies slots
      ensures sz > 0 ==> r == FirstFit(old(slots[..]), sz, Pow2(alignLog2), 0)
      ensures sz == 0 ==> r == if slots.Length > 0 then Some(0) else None
      ensures slots[..] == if r.Some? then Taken(old(slots[..]), r.value, sz) else old(slots[..])
    {
      var a := Pow2(alignLog2);
      ghost var s := slots[..];
      var start := 0;
      while start < slots.Length
        invariant start % a == 0 && slots[..] == s
        invariant sz > 0 ==> FirstFit(s, sz, a, start) == FirstFit(s, sz, a, 0)
        invariant sz == 0 ==> start == 0
        decreases slots.Length - start
      {
        if start + sz > slots.Length {
          break;
        }
        var all := true;
        var i := start;
        while i < start + sz
          invariant start <= i <= start + sz
          invariant all <==> forall j :: start <= j < i ==> s[j]
        {
          all := all && slots[i];
          i := i + 1;
        }
        if all {
          assert FreeRun(s, start, sz);
          Take(start, sz);
          return Some(start);
        }
        NothingUntilNextMultiple(s, sz, a, start);
        ModAdd(a, start, a);
        start := start + a;
      }
      return None;
    }

    /** The skip-ahead search: on a taken frame, continue just past it. */
    method FrameAllocContig(sz: nat, align: nat) returns (r: Option<nat>)
      modifies slots
      ensures sz == 0 ==> r == None && slots[..] == old(slots[..])
      ensures sz > 0 ==>
        var found := FirstFit(old(slots[..]), sz, Pow2(align), 0);
        && r == (if found.Some? then Some(found.value * PAGE_SZ + MEM_OFF) else None)
        && slots[..] == if found.Some? then Taken(old(slots[..]), found.value, sz) else old(slots[..])
    {
      if sz == 0 {
        return None;
      }
      var al := if align < 1 then 1 else Pow2(align);
      var total := slots.Length;
      ghost var s := slots[..];
      var start := 0;
      while start + sz <= total
        invariant slots[..] == s
        invariant FirstFit(s, sz, al, start) == FirstFit(s, sz, al, 0)
        decreases total - start
      {
        if start % al != 0 {
          SkipToAligned(s, sz, align, start);
          start := AndNot(start + al, al - 1);
          continue;
        }
        var j := FirstTaken(start, start + sz);
        if j < start + sz {
          SkipTaken(s, sz, al, start, j);
          start := j + 1;
        } else {
          Take(start, sz);
          return Some(start * PAGE_SZ + MEM_OFF);
        }
      }
      return None;
    }

    /** The first taken frame from `lo` on, or `hi`. */
    method FirstTaken(lo: nat, hi: nat) returns (j: nat)
      requires lo <= hi <= slots.Length
      ensures lo <= j <= hi && (j < hi ==> !slots[j])
      ensures j == hi ==> FreeRun(slots[..], lo, hi - lo)
    {
      j := lo;
      while j < hi && slots[j]
        invariant lo <= j <= hi
        invariant forall i :: lo <= i < j ==> slots[i]
      {
        j := j + 1;
      }
    }

    method Take(p: nat, sz: nat)
      requires p + sz <= slots.Length
      modifies slots
      ensures slots[..] == Taken(old(slots[..]), p, sz)
    {
      ghost var s := slots[..];
      for j := p to p + sz
        invariant forall i :: 0 <= i < slots.Length ==> slots[i] == (s[i] && !(p <= i < j))
      {
        slots[j] := false;
      }
    }
  }

  /** On equal bitmaps the two searches find the same frames and leave equal bitmaps. */
  method SearchesAgree(p: Pool, q: Pool, sz: nat, align: nat) returns (stepwise: Option<nat>, skipping: Option<nat>)
    requires sz > 0 && p.slots != q.slots && p.slots[..] == q.slots[..]
    modifies p.slots, q.slots
    ensures skipping == if stepwise.Some? then Some(stepwise.value * PAGE_SZ + MEM_OFF) else None
    ensures p.slots[..] == q.slots[..]
  {
    stepwise := p.GetContig(sz, align);
    skipping := q.FrameAllocContig(sz, align);
  }

  lemma FirstFreeAt(s: seq<bool>, i: nat)
    requires i <= |s| && (forall j :: 0 <= j < i ==> !s[j]) && (i < |s| ==> s[i])
    ensures FirstFree(s) == if i < |s| then Some(i) else None
  {
    var r := FirstFree(s);
  }

  /** Starts between `q` and `q'` that are unaligned or meet a taken frame can be skipped. */
  lemma {:induction false} NothingBetween(s: seq<bool>, sz: nat, al: nat, q: nat, q': nat)
    requires al > 0 && sz > 0 && q <= q'
    requires forall p: nat :: q <= p < q' && p % al == 0 ==> !FreeRun(s, p, sz)
    ensures FirstFit(s, sz, al, q) == FirstFit(s, sz, al, q')
    decreases q' - q
  {
    if q < q' {
      NothingBetween(s, sz, al, q + 1, q');
    }
  }

  lemma NothingUntilNextMultiple(s: seq<bool>, sz: nat, al: nat, q: nat)
    requires al > 0 && sz > 0 && q % al == 0 && !FreeRun(s, q, sz)
    ensures FirstFit(s, sz, al, q) == FirstFit(s, sz, al, q + al)
  {
    forall p: nat | q <= p < q + al && p % al == 0
      ensures p == q
    {
      if q < p { MultiplesApart(q, p, al); }
    }
    NothingBetween(s, sz, al, q, q + al);
  }

  lemma SkipToAligned(s: seq<bool>, sz: nat, k: nat, start: nat)
    requires sz > 0 && start % Pow2(k) != 0
    ensures start < AndNot(start + Pow2(k), Pow2(k) - 1)
    ensures FirstFit(s, sz, Pow2(k), start) == FirstFit(s, sz, Pow2(k), AndNot(start + Pow2(k), Pow2(k) - 1))
  {
    NextMultiple(start, k);
    NothingBetween(s, sz, Pow2(k), start, AndNot(start + Pow2(k), Pow2(k) - 1));
  }

  /** A taken frame rules out every start up to itself. */
  lemma SkipTaken(s: seq<bool>, sz: nat, al: nat, start: nat, j: nat)
    requires al > 0 && start <= j < start + sz <= |s| && !s[j]
    ensures FirstFit(s, sz, al, start) == FirstFit(s, sz, al, j + 1)
  {
    NothingBetween(s, sz, al, start, j + 1);
  }

  /** `(start + al) & !(al - 1)` is the next multiple of `al` above an unaligned start. */
  lemma NextMultiple(start: nat, k: nat)
    requires start % Pow2(k) != 0
    ensures start < AndNot(start + Pow2(k), Pow2(k) - 1)
    ensures forall p: nat :: start <= p < AndNot(start + Pow2(k), Pow2(k) - 1) ==> p % Pow2(k) != 0
  {
    MaskedNext(start, k);
    NoMultipleBefore(start, Pow2(k));
  }

  lemma MaskedNext(start: nat, k: nat)
    ensures AndNot(start + Pow2(k), Pow2(k) - 1) == start + Pow2(k) - start % Pow2(k)
  {
    AndNotMask(start + Pow2(k), k);
    ModPlusSelf(start, Pow2(k));
  }

  lemma NoMultipleBefore(start: nat, al: nat)
    requires al > 0 && start % al != 0
    ensures start < start + al - start % al
    ensures forall p: nat :: start <= p < start + al - start % al ==> p % al != 0
  {
    NextMultipleOf(start, al);
    var next := start + al - start % al;
    forall p: nat | start <= p < next
      ensures p % al != 0
    {
      if p % al == 0 {
        MultiplesApart(p, next, al);
      }
    }
  }
}
