/** Whole runs of insertions and removals on a region list: what stays true of it, what it
    holds, and when the binary search over it is right. */
module VmRuns {
  import opened Common
  import opened VmMap

  datatype Op = Insert(r: Region) | Remove(base: nat, len: nat)

  /** One call, as `Map.Insert` and `Map.RemoveRange` leave the list. */
  ghost function Apply(rs: seq<Region>, op: Op): seq<Region> {
    match op
    case Insert(r) => if Accepts(rs, r) then InsertSpec(rs, r) else rs
    case Remove(base, len) => Outside(rs, base, Wrap(base + len))
  }

  ghost function Exec(ops: seq<Op>): seq<Region> {
    if ops == [] then [] else Apply(Exec(ops[..|ops| - 1]), ops[|ops| - 1])
  }

  // ---- contents -------------------------------------------------------------

  /** How often `r` is held after `op`, if it was `n` times before. */
  ghost function HeldAfter(n: nat, rs: seq<Region>, op: Op, r: Region): nat {
    match op
    case Insert(x) => n + (if x == r && Accepts(rs, x) then 1 else 0)
    case Remove(base, len) => if r.Hit(base, Wrap(base + len)) then 0 else n
  }

  /** How often region `r` was accepted since the last removal that hit it. */
  ghost function Held(ops: seq<Op>, r: Region): nat {
    if ops == [] then 0
    else HeldAfter(Held(ops[..|ops| - 1], r), Exec(ops[..|ops| - 1]), ops[|ops| - 1], r)
  }

  /** The list holds exactly the regions accepted and not removed, each as often, and is
      always in order of base. */
  lemma {:induction false} RunHoldsExactly(ops: seq<Op>, r: Region)
    ensures multiset(Exec(ops))[r] == Held(ops, r) && ByBase(Exec(ops))
  {
    if ops != [] {
      var n := |ops| - 1;
      RunHoldsExactly(ops[..n], r);
      ApplyHolds(Exec(ops[..n]), ops[n], r);
    }
  }

  lemma ApplyHolds(rs: seq<Region>, op: Op, r: Region)
    requires ByBase(rs)
    ensures ByBase(Apply(rs, op))
    ensures multiset(Apply(rs, op))[r] == HeldAfter(multiset(rs)[r], rs, op, r)
  {
    match op
    case Insert(x) => InsertHolds(rs, x, r);
    case Remove(base, len) => RemoveHolds(rs, base, Wrap(base + len), r);
  }

  lemma InsertHolds(rs: seq<Region>, x: Region, r: Region)
    requires ByBase(rs)
    ensures ByBase(InsertSpec(rs, x))
    ensures multiset(InsertSpec(rs, x))[r] == multiset(rs)[r] + (if x == r then 1 else 0)
  {
    InsertAddsOne(rs, x);
    InsertByBase(rs, x);
  }

  lemma RemoveHolds(rs: seq<Region>, lo: nat, hi: nat, r: Region)
    requires ByBase(rs)
    ensures ByBase(Outside(rs, lo, hi))
    ensures multiset(Outside(rs, lo, hi))[r] == if r.Hit(lo, hi) then 0 else multiset(rs)[r]
  {
    OutsideCounts(rs, lo, hi, r);
    OutsideByBase(rs, lo, hi);
  }

  // ---- regions stay apart ---------------------------------------------------

  /** Every region starts at a machine address. */
  ghost predicate WordBases(ops: seq<Op>) {
    forall i :: 0 <= i < |ops| && ops[i].Insert? ==> ops[i].r.base < USIZE_RANGE
  }

  /** `op` is accepted though it wraps over another region. */
  ghost predicate OverlapsOne(rs: seq<Region>, op: Op) {
    op.Insert? && Accepts(rs, op.r) && WrapsOver(rs, op.r)
  }

  ghost predicate RunOverlaps(ops: seq<Op>) {
    ops != [] && (RunOverlaps(ops[..|ops| - 1]) || OverlapsOne(Exec(ops[..|ops| - 1]), ops[|ops| - 1]))
  }

  /** Apart after every step. */
  ghost predicate AlwaysApart(ops: seq<Op>) {
    Apart(Exec(ops)) && (ops == [] || AlwaysApart(ops[..|ops| - 1]))
  }

  lemma {:induction false} RunBases(ops: seq<Op>)
    requires WordBases(ops)
    ensures forall i :: 0 <= i < |Exec(ops)| ==> Exec(ops)[i].base < USIZE_RANGE
  {
    if ops != [] {
      var n := |ops| - 1;
      RunBases(ops[..n]);
      ApplyBases(Exec(ops[..n]), ops[n]);
    }
  }

  lemma ApplyBases(rs: seq<Region>, op: Op)
    requires forall i :: 0 <= i < |rs| ==> rs[i].base < USIZE_RANGE
    requires op.Insert? ==> op.r.base < USIZE_RANGE
    ensures forall i :: 0 <= i < |Apply(rs, op)| ==> Apply(rs, op)[i].base < USIZE_RANGE
  {
    var after := Apply(rs, op);
    forall i | 0 <= i < |after|
      ensures after[i].base < USIZE_RANGE
    {
      match op
      case Insert(r) => if Accepts(rs, r) { Shifted(rs, r, StartsUpTo(rs, r.base), i); }
      case Remove(base, len) =>
        OutsideMembers(rs, base, Wrap(base + len));
        assert after[i] in rs;
    }
  }

  lemma ApplyApartIff(rs: seq<Region>, op: Op)
    requires Apart(rs) && forall i :: 0 <= i < |rs| ==> rs[i].base < USIZE_RANGE
    ensures Apart(Apply(rs, op)) <==> !OverlapsOne(rs, op)
  {
    match op
    case Insert(r) =>
      if Accepts(rs, r) {
        InsertApartIff(rs, r);
        AcceptedMeetsIff(rs, r);
      }
    case Remove(base, len) => OutsideApart(rs, base, Wrap(base + len));
  }

  /** The regions stay disjoint throughout a run if and only if no accepted region wraps over
      another. */
  lemma {:induction false} ApartIffNothingOverlaps(ops: seq<Op>)
    requires WordBases(ops)
    ensures AlwaysApart(ops) <==> !RunOverlaps(ops)
  {
    if ops != [] {
      var n := |ops| - 1;
      ApartIffNothingOverlaps(ops[..n]);
      RunBases(ops[..n]);
      if AlwaysApart(ops[..n]) {
        ApplyApartIff(Exec(ops[..n]), ops[n]);
      }
    }
  }

  lemma TwoInserts(a: Region, b: Region)
    requires a.base <= b.base && !a.Meets(b.base, Wrap(b.End()))
    ensures Exec([Insert(a), Insert(b)]) == [a, b]
  {
    var ops := [Insert(a), Insert(b)];
    assert ops[..1] == [Insert(a)] && [Insert(a)][..0] == [];
    assert InsertSpec([], a) == [a];
    StartsUnique([a], b.base, 1);
    assert Exec([Insert(a)]) == [a];
    assert Accepts([a], b);
  }

  /** The condition is needed: a region that wraps is accepted over another. Wrapping alone
      does no harm: a lone region that wraps leaves the list apart. */
  lemma WrappingRegionOverlaps()
    ensures var a, b := Region(49, 100, 0), Region(50, USIZE_RANGE - 1, 0);
            && Exec([Insert(a), Insert(b)]) == [a, b] && a.Contains(60) && b.Contains(60)
            && Exec([Insert(b)]) == [b] && Apart([b])
  {
    var b := Region(50, USIZE_RANGE - 1, 0);
    TwoInserts(Region(49, 100, 0), b);
    assert [Insert(b)][..0] == [] && InsertSpec([], b) == [b];
  }

  // ---- the binary search ----------------------------------------------------

  /** `op` is accepted and inserts an empty region at the start of another. */
  ghost predicate HidesOne(rs: seq<Region>, op: Op) {
    op.Insert? && Accepts(rs, op.r) && Hides(rs, op.r)
  }

  ghost predicate RunHides(ops: seq<Op>) {
    ops != [] && (RunHides(ops[..|ops| - 1]) || HidesOne(Exec(ops[..|ops| - 1]), ops[|ops| - 1]))
  }

  /** Sorted after every step. */
  ghost predicate AlwaysSorted(ops: seq<Op>) {
    Sorted(Exec(ops)) && (ops == [] || AlwaysSorted(ops[..|ops| - 1]))
  }

  lemma ApplySortedIff(rs: seq<Region>, op: Op)
    requires Sorted(rs) && !OverlapsOne(rs, op) && forall i :: 0 <= i < |rs| ==> rs[i].base < USIZE_RANGE
    ensures Sorted(Apply(rs, op)) <==> !HidesOne(rs, op)
  {
    match op
    case Insert(r) =>
      if Accepts(rs, r) {
        AcceptedMeetsIff(rs, r);
        InsertSortedIff(rs, r);
      }
    case Remove(base, len) => OutsideExact(rs, base, Wrap(base + len));
  }

  /** The regions stay sorted throughout a run if and only if no step hides one. */
  lemma {:induction false} SortedIffNothingHidden(ops: seq<Op>)
    requires WordBases(ops) && !RunOverlaps(ops)
    ensures AlwaysSorted(ops) <==> !RunHides(ops)
  {
    if ops != [] {
      var n := |ops| - 1;
      SortedIffNothingHidden(ops[..n]);
      RunBases(ops[..n]);
      if AlwaysSorted(ops[..n]) {
        ApplySortedIff(Exec(ops[..n]), ops[n]);
      }
    }
  }

  /** After every run, for every address: the binary search finds what a linear scan finds
      if and only if its probes, which depend on indices alone, reach each region that has
      the address; otherwise it finds nothing. Nothing hidden is one way to be reached. */
  lemma LookupExactIff(ops: seq<Op>, addr: nat)
    requires WordBases(ops) && !RunOverlaps(ops)
    ensures var rs := Exec(ops);
            var found := Bisect(rs, addr, 0, |rs|);
            && (FirstContaining(rs, addr).Some? <==> exists k :: 0 <= k < |rs| && rs[k].Contains(addr))
            && (found == FirstContaining(rs, addr)
                <==> forall k :: 0 <= k < |rs| && rs[k].Contains(addr) ==> Reached(rs, k))
            && (found != FirstContaining(rs, addr) ==> found == None)
            && (!RunHides(ops) ==> found == FirstContaining(rs, addr))
  {
    var rs := Exec(ops);
    ApartIffNothingOverlaps(ops);
    NothingContains(rs, addr);
    if k :| 0 <= k < |rs| && rs[k].Contains(addr) {
      LookupIff(rs, addr, k);
    } else {
      NothingFound(rs, addr, 0, |rs|);
    }
    if !RunHides(ops) {
      SortedIffNothingHidden(ops);
      BisectIsLinear(rs, addr, 0, |rs|);
    }
  }

  /** The condition is needed: an empty region at the start of another is accepted and can
      hide it from the binary search. */
  lemma EmptyRegionHidesAnother()
    ensures var rs := Exec([Insert(Region(10, 10, 0)), Insert(Region(10, 0, 0))]);
            Bisect(rs, 15, 0, |rs|) == None && FirstContaining(rs, 15) == Some(Region(10, 10, 0))
  {
    TwoInserts(Region(10, 10, 0), Region(10, 0, 0));
  }
}
