/** Address spaces with copy-on-write pages over one frame pool: whatever forks, faults
    and unmaps happen, a frame handed out for writing is mapped by one page only. */
module AddrSpace {
  import opened Common
  import opened Bits
  import VmMap
  import FramePool

  /** A page's frame and the count kept with it, private to the space. */
  datatype PgFrame = PgFrame(frame: nat, rc: int)

  type CowPages = map<nat, PgFrame>

  datatype Space = Space(regions: seq<VmMap.Region>, cow: CowPages)

  // ---- operations on values -------------------------------------------------

  predicate Writable(flags: nat) {
    (flags / 2) % 2 == 1
  }

  function PageOf(addr: nat): nat {
    AndNot(addr, PAGE_SZ - 1)
  }

  function PhysAddr(frame: nat): nat {
    frame * PAGE_SZ + MEM_OFF
  }

  function Raised(cow: CowPages): CowPages {
    map p | p in cow :: PgFrame(cow[p].frame, cow[p].rc + 1)
  }

  function FaultSpec(sp: Space, slots: seq<bool>, addr: nat): (Space, seq<bool>, Result<nat>) {
    var region := VmMap.Bisect(sp.regions, addr, 0, |sp.regions|);
    var page := PageOf(addr);
    if region.None? || !Writable(region.value.flags) then (sp, slots, Err("segfault"))
    else if page in sp.cow && sp.cow[page].rc <= 1 then (sp, slots, Ok(PhysAddr(sp.cow[page].frame)))
    else
      match FramePool.FirstFree(slots)
      case None => (sp, slots, Err("oom"))
      case Some(f) =>
        (sp.(cow := sp.cow[page := PgFrame(f, 1)]), FramePool.Taken(slots, f, 1), Ok(PhysAddr(f)))
  }

  /** The regions a fork inserts one by one into an empty list. */
  ghost function Copied(rs: seq<VmMap.Region>): seq<VmMap.Region> {
    if rs == [] then []
    else
      var copy, r := Copied(rs[..|rs| - 1]), rs[|rs| - 1];
      if VmMap.Accepts(copy, r) then VmMap.InsertSpec(copy, r) else copy
  }

  function InRange(cow: CowPages, lo: nat, hi: nat): set<nat> {
    set p | p in cow && lo <= p < hi
  }

  function UnmapSpec(sp: Space, start: nat, len: nat): Space {
    Space(VmMap.Outside(sp.regions, start, start + len), sp.cow - InRange(sp.cow, start, start + len))
  }

  // ---- the object -----------------------------------------------------------

  class AddressSpace {
    const vm: VmMap.Map
    var cow: CowPages

    ghost function Value(): Space
      reads this, vm
    {
      Space(vm.regions, cow)
    }

    constructor ()
      ensures fresh(vm) && vm.regions == [] && cow == map[]
      ensures vm.brk == 0x0040_0000 && vm.mmapBase == 0x7000_0000
    {
      vm := new VmMap.Map();
      cow := map[];
    }

    /** Fork: the child has the parent's regions where those are apart, and every page is now
        counted once more on both sides. */
    static method ForkFrom(parent: AddressSpace) returns (child: AddressSpace)
      modifies parent`cow
      ensures fresh(child) && fresh(child.vm)
      ensures parent.cow == Raised(old(parent.cow)) && child.cow == Raised(old(parent.cow))
      ensures child.vm.regions == Copied(parent.vm.regions)
      ensures VmMap.Placed(parent.vm.regions) ==> child.vm.regions == parent.vm.regions
      ensures child.vm.brk == parent.vm.brk && child.vm.mmapBase == parent.vm.mmapBase
    {
      child := new AddressSpace();
      child.vm.brk := parent.vm.brk;
      child.vm.mmapBase := parent.vm.mmapBase;
      CopyRegions(child.vm, parent.vm.regions);
      if VmMap.Placed(parent.vm.regions) {
        CopiedIsSame(parent.vm.regions);
      }
      child.cow := CopyRaised(parent);
    }

    /** Insert the regions one by one into an empty list. */
    static method CopyRegions(vm: VmMap.Map, regions: seq<VmMap.Region>)
      requires vm.regions == []
      modifies vm`regions
      ensures vm.regions == Copied(regions)
    {
      for i := 0 to |regions|
        invariant vm.regions == Copied(regions[..i]) && VmMap.ByBase(vm.regions)
      {
        assert regions[..i + 1][..i] == regions[..i];
        VmMap.InsertByBase(vm.regions, regions[i]);
        var _ := vm.Insert(regions[i]);
      }
      assert regions[..|regions|] == regions;
    }

    /** Raise every count of `parent`, and return a copy of the raised entries. */
    static method CopyRaised(parent: AddressSpace) returns (copy: CowPages)
      modifies parent`cow
      ensures copy == Raised(old(parent.cow)) && parent.cow == Raised(old(parent.cow))
    {
      copy := map[];
      ghost var before := parent.cow;
      var todo := parent.cow.Keys;
      while todo != {}
        invariant todo <= before.Keys && parent.cow.Keys == before.Keys
        invariant copy.Keys == before.Keys - todo
        invariant forall p :: p in todo ==> parent.cow[p] == before[p]
        invariant forall p :: p in before && p !in todo ==>
                    parent.cow[p] == PgFrame(before[p].frame, before[p].rc + 1) && copy[p] == parent.cow[p]
        decreases todo
      {
        var p :| p in todo;
        var frame := parent.cow[p];
        parent.cow := parent.cow[p := frame.(rc := frame.rc + 1)];
        copy := copy[p := PgFrame(parent.cow[p].frame, parent.cow[p].rc)];
        todo := todo - {p};
      }
    }

    method HandleCowFault(addr: nat, pool: FramePool.Pool) returns (r: Result<nat>)
      modifies this`cow, pool.slots
      ensures (Value(), pool.slots[..], r) == FaultSpec(old(Value()), old(pool.slots[..]), addr)
    {
      var page := AndNot(addr, PAGE_SZ - 1);
      var region := vm.Find(addr);
      if region.None? {
        return Err("segfault");
      }
      if !Writable(region.value.flags) {
        return Err("segfault");
      }
      if page in cow {
        var frame := cow[page];
        if frame.rc <= 1 {
          return Ok(frame.frame * PAGE_SZ + MEM_OFF);
        }
        var f := pool.GetInner();
        if f.None? {
          return Err("oom");
        }
        cow := cow[page := frame.(rc := frame.rc - 1)];
        cow := cow[page := PgFrame(f.value, 1)];
        assert cow == old(cow)[page := PgFrame(f.value, 1)];
        return Ok(f.value * PAGE_SZ + MEM_OFF);
      } else {
        var f := pool.GetInner();
        if f.None? {
          return Err("oom");
        }
        cow := cow[page := PgFrame(f.value, 1)];
        return Ok(f.value * PAGE_SZ + MEM_OFF);
      }
    }

    method UnmapRange(start: nat, len: nat) returns (count: nat)
      requires start + len < USIZE_RANGE
      modifies this`cow, vm`regions
      ensures Value() == UnmapSpec(old(Value()), start, len)
      ensures count == |old(vm.regions)| - |vm.regions| + |InRange(old(cow), start, start + len)|
    {
      var end := start + len;
      var removed := vm.RemoveRange(start, len);
      var pages := set p | p in cow.Keys && start <= p < end;
      assert pages == InRange(cow, start, end);
      cow := cow - pages;
      count := removed + |pages|;
    }
  }

  lemma {:induction false} CopiedIsSame(rs: seq<VmMap.Region>)
    requires VmMap.Placed(rs)
    ensures Copied(rs) == rs
  {
    if rs != [] {
      var n := |rs| - 1;
      PlacedPrefix(rs, n);
      CopiedIsSame(rs[..n]);
      LastGoesLast(rs[..n], rs[n]);
      assert rs[..n] + [rs[n]] == rs;
    }
  }

  lemma PlacedPrefix(rs: seq<VmMap.Region>, n: nat)
    requires VmMap.Placed(rs) && n < |rs|
    ensures VmMap.Placed(rs[..n])
    ensures forall i :: 0 <= i < n ==> rs[..n][i].base <= rs[n].base && !rs[..n][i].Meets(rs[n].base, rs[n].End())
    ensures rs[n].End() < USIZE_RANGE
  {
    VmMap.SplitApart(rs, n);
    forall i | 0 <= i < n
      ensures rs[..n][i].base <= rs[n].base && !rs[..n][i].Meets(rs[n].base, rs[n].End())
    {
      assert rs[..n][i] == rs[i];
    }
  }

  lemma LastGoesLast(rs: seq<VmMap.Region>, r: VmMap.Region)
    requires r.End() < USIZE_RANGE
    requires forall i :: 0 <= i < |rs| ==> rs[i].base <= r.base && !rs[i].Meets(r.base, r.End())
    ensures VmMap.Accepts(rs, r) && VmMap.InsertSpec(rs, r) == rs + [r]
  {
    VmMap.StartsUnique(rs, r.base, |rs|);
    assert rs[..|rs|] + [r] + rs[|rs|..] == rs + [r];
  }

  // ---- what a fork and an unmap do to the pages ------------------------------

  /** A fork keeps every page and frame on both sides and raises each count by one. */
  lemma RaisedExact(cow: CowPages, p: nat)
    ensures p in Raised(cow) <==> p in cow
    ensures p in cow ==> Raised(cow)[p].frame == cow[p].frame && Raised(cow)[p].rc == cow[p].rc + 1
  {
  }

  /** An unmap removes the pages from `start` up to, not including, `start + len` and keeps the
      others as they were; and it removes the regions that share an address with the range and
      the empty ones within its bounds. */
  lemma UnmapExact(sp: Space, start: nat, len: nat, p: nat, r: VmMap.Region)
    ensures var sp' := UnmapSpec(sp, start, len);
            && (p in sp'.cow <==> p in sp.cow && (p < start || start + len <= p))
            && (p in sp'.cow ==> sp'.cow[p] == sp.cow[p])
            && (r in sp'.regions <==> r in sp.regions && !r.Meets(start, start + len)
                                      && !(r.len == 0 && start <= r.base <= start + len))
  {
    VmMap.OutsideExact(sp.regions, start, start + len);
  }

  // ---- which faults succeed, and how ----------------------------------------

  /** Bit 1 of the flags is the write permission. */
  lemma WriteBit(q: nat, b: nat)
    requires b < 2
    ensures !Writable(4 * q + b) && Writable(4 * q + 2 + b)
  {
  }

  lemma WritableIff(flags: nat)
    ensures Writable(flags) <==> flags % 4 >= 2
  {
    if flags % 4 < 2 {
      WriteBit(flags / 4, flags % 4);
    } else {
      WriteBit(flags / 4, flags % 4 - 2);
    }
  }

  /** The page of an address is the multiple of the page size at or below it. */
  lemma PageIs(addr: nat)
    ensures PageOf(addr) % PAGE_SZ == 0 && PageOf(addr) <= addr < PageOf(addr) + PAGE_SZ
  {
    assert Pow2(12) == PAGE_SZ by { Pow2Twelve(); }
    AndNotMask(addr, 12);
    RoundDown(addr, PAGE_SZ);
  }

  /** The page is mapped and counted once. */
  predicate Alone(sp: Space, page: nat) {
    page in sp.cow && sp.cow[page].rc == 1
  }

  /** In every state that keeps the sharing invariant, so in every reachable one: a write fault
      is a segmentation fault exactly where the lookup finds no region or one without the write
      bit, and out of memory exactly where it needs a frame and none is free; neither changes
      anything. It keeps the frame of a page counted once and changes nothing; otherwise it
      takes the least free frame for the page alone. */
  lemma FaultOutcome(w: World, id: nat, addr: nat, page: nat)
    requires Inv(w) && id in w.spaces && page % PAGE_SZ == 0 && page <= addr < page + PAGE_SZ
    ensures var sp := w.spaces[id];
            var region := VmMap.Bisect(sp.regions, addr, 0, |sp.regions|);
            var (sp', slots', r) := FaultSpec(sp, w.slots, addr);
            var refused := region.None? || region.value.flags % 4 < 2;
            var needsFrame := !refused && !Alone(sp, page);
            var noFrame := forall i :: 0 <= i < |w.slots| ==> !w.slots[i];
            && (r == Err("segfault") <==> refused)
            && (r == Err("oom") <==> needsFrame && noFrame)
            && (r.Err? ==> r == Err("segfault") || r == Err("oom"))
            && sp'.regions == sp.regions
            && (r.Err? || Alone(sp, page) ==> sp' == sp && slots' == w.slots)
            && (r.Ok? && Alone(sp, page) ==> r.value == sp.cow[page].frame * PAGE_SZ + MEM_OFF)
            && (r.Ok? && !Alone(sp, page) ==> TookFrame(sp, sp', w.slots, slots', page, r.value))
  {
    PageIs(addr);
    SamePage(PageOf(addr), page, addr);
    var sp := w.spaces[id];
    var region := VmMap.Bisect(sp.regions, addr, 0, |sp.regions|);
    if region.Some? {
      WritableIff(region.value.flags);
    }
    if page in sp.cow {
      assert Maps(w, id, page) && At(w, id, page).rc >= 1;
    }
  }

  lemma SamePage(p: nat, q: nat, addr: nat)
    requires p % PAGE_SZ == 0 && p <= addr < p + PAGE_SZ && q % PAGE_SZ == 0 && q <= addr < q + PAGE_SZ
    ensures p == q
  {
    if p < q {
      MultiplesApart(p, q, PAGE_SZ);
    } else if q < p {
      MultiplesApart(q, p, PAGE_SZ);
    }
  }

  /** The page is mapped to the least free frame, counted once; no other page and no other frame
      changes. */
  ghost predicate TookFrame(sp: Space, sp': Space, slots: seq<bool>, slots': seq<bool>, page: nat, pa: nat) {
    exists f: nat ::
      && f < |slots| && slots[f] && (forall i :: 0 <= i < f ==> !slots[i])
      && pa == f * PAGE_SZ + MEM_OFF
      && |slots'| == |slots| && (forall i :: 0 <= i < |slots| ==> slots'[i] == (slots[i] && i != f))
      && page in sp'.cow && sp'.cow[page] == PgFrame(f, 1)
      && (forall p :: p != page ==> (p in sp'.cow <==> p in sp.cow) && (p in sp.cow ==> sp'.cow[p] == sp.cow[p]))
  }

  /** The outcome in every run from an empty system. */
  lemma EveryFaultOutcome(slots: seq<bool>, ops: seq<Op>, w: World, id: nat, addr: nat)
    requires Run(World(map[], slots), ops, w) && id in w.spaces
    ensures var sp := w.spaces[id];
            var region := VmMap.Bisect(sp.regions, addr, 0, |sp.regions|);
            var page := addr - addr % PAGE_SZ;
            var r := FaultSpec(sp, w.slots, addr).2;
            && (r == Err("segfault") <==> region.None? || region.value.flags % 4 < 2)
            && (r == Err("oom") <==> region.Some? && region.value.flags % 4 >= 2 && !Alone(sp, page)
                                     && forall i :: 0 <= i < |w.slots| ==> !w.slots[i])
  {
    RunInv(World(map[], slots), ops, w);
    RoundDown(addr, PAGE_SZ);
    FaultOutcome(w, id, addr, addr - addr % PAGE_SZ);
  }

  // ---- many spaces over one pool --------------------------------------------

  datatype World = World(spaces: map<nat, Space>, slots: seq<bool>)

  ghost predicate Maps(w: World, a: nat, p: nat) {
    a in w.spaces && p in w.spaces[a].cow
  }

  ghost function At(w: World, a: nat, p: nat): PgFrame
    requires Maps(w, a, p)
  {
    w.spaces[a].cow[p]
  }

  /** Mapped frames are taken in the pool, and two pages with one frame both count at
      least two. */
  ghost predicate Inv(w: World) {
    && (forall a, p :: Maps(w, a, p) ==>
          At(w, a, p).rc >= 1 && At(w, a, p).frame < |w.slots| && !w.slots[At(w, a, p).frame])
    && (forall a, p, b, q ::
          Maps(w, a, p) && Maps(w, b, q) && (a, p) != (b, q) && At(w, a, p).frame == At(w, b, q).frame
          ==> At(w, a, p).rc >= 2)
  }

  datatype Op =
    | NewSpace(id: nat)
    | AddRegion(id: nat, region: VmMap.Region)
    | Fork(parent: nat, child: nat)
    | Fault(id: nat, addr: nat)
    | Unmap(id: nat, start: nat, len: nat)
    | OtherUse(slots: seq<bool>)

  /** `OtherUse` is any other traffic on the pool that leaves mapped frames taken. */
  ghost predicate Legal(w: World, op: Op) {
    match op
    case NewSpace(id) => id !in w.spaces
    case AddRegion(id, _) => id in w.spaces
    case Fork(parent, child) => parent in w.spaces && child !in w.spaces
    case Fault(id, _) => id in w.spaces
    case Unmap(id, _, _) => id in w.spaces
    case OtherUse(slots) =>
      |slots| == |w.slots| && forall a, p :: Maps(w, a, p) && At(w, a, p).frame < |slots| ==> !slots[At(w, a, p).frame]
  }

  ghost function Apply(w: World, op: Op): World
    requires Legal(w, op)
  {
    match op
    case NewSpace(id) => w.(spaces := w.spaces[id := Space([], map[])])
    case AddRegion(id, r) =>
      var sp := w.spaces[id];
      if VmMap.Accepts(sp.regions, r)
      then w.(spaces := w.spaces[id := sp.(regions := VmMap.InsertSpec(sp.regions, r))])
      else w
    case Fork(parent, child) =>
      var raised := w.spaces[parent].(cow := Raised(w.spaces[parent].cow));
      w.(spaces := w.spaces[parent := raised][child := raised.(regions := Copied(raised.regions))])
    case Fault(id, addr) =>
      var (sp, slots, _) := FaultSpec(w.spaces[id], w.slots, addr);
      World(w.spaces[id := sp], slots)
    case Unmap(id, start, len) => w.(spaces := w.spaces[id := UnmapSpec(w.spaces[id], start, len)])
    case OtherUse(slots) => w.(slots := slots)
  }

  lemma ForkInv(w: World, parent: nat, child: nat)
    requires Inv(w) && Legal(w, Fork(parent, child))
    ensures Inv(Apply(w, Fork(parent, child)))
  {
    var w' := Apply(w, Fork(parent, child));
    forall a, p | Maps(w', a, p)
      ensures var a0 := if a == child then parent else a;
              Maps(w, a0, p) && At(w', a, p).frame == At(w, a0, p).frame
              && At(w', a, p).rc == At(w, a0, p).rc + (if a == child || a == parent then 1 else 0)
    {
    }
  }

  lemma FaultInv(w: World, id: nat, addr: nat)
    requires Inv(w) && id in w.spaces
    ensures Inv(Apply(w, Fault(id, addr)))
    ensures var r := FaultSpec(w.spaces[id], w.slots, addr).2;
            r.Ok? ==> SoleOwner(Apply(w, Fault(id, addr)), id, PageOf(addr), r.value)
  {
    var w' := Apply(w, Fault(id, addr));
    var page := PageOf(addr);
    var (sp, slots, r) := FaultSpec(w.spaces[id], w.slots, addr);
    if r.Ok? && slots != w.slots {
      var f := FramePool.FirstFree(w.slots).value;
      forall a: nat, p: nat | Maps(w', a, p) && (a, p) != (id, page)
        ensures Maps(w, a, p) && At(w', a, p) == At(w, a, p) && At(w, a, p).frame != f
      {
      }
      assert At(w', id, page) == PgFrame(f, 1);
    } else {
      assert w' == w;
      if r.Ok? {
        assert Maps(w, id, page);
      }
    }
  }

  lemma UnmapInv(w: World, id: nat, start: nat, len: nat)
    requires Inv(w) && id in w.spaces
    ensures Inv(Apply(w, Unmap(id, start, len)))
  {
    var w' := Apply(w, Unmap(id, start, len));
    forall a, p | Maps(w', a, p)
      ensures Maps(w, a, p) && At(w', a, p) == At(w, a, p)
    {
    }
  }

  lemma SamePagesInv(w: World, w': World)
    requires Inv(w) && |w'.slots| == |w.slots|
    requires forall a, p :: Maps(w', a, p) ==>
               Maps(w, a, p) && At(w', a, p) == At(w, a, p) && !w'.slots[At(w, a, p).frame]
    ensures Inv(w')
  {
  }

  lemma ApplyInv(w: World, op: Op)
    requires Inv(w) && Legal(w, op)
    ensures Inv(Apply(w, op))
  {
    match op
    case NewSpace(id) => SamePagesInv(w, Apply(w, op));
    case AddRegion(id, r) => SamePagesInv(w, Apply(w, op));
    case Fork(parent, child) => ForkInv(w, parent, child);
    case Fault(id, addr) => FaultInv(w, id, addr);
    case Unmap(id, start, len) => UnmapInv(w, id, start, len);
    case OtherUse(slots) => SamePagesInv(w, Apply(w, op));
  }

  ghost predicate Run(w: World, ops: seq<Op>, w': World)
    decreases |ops|
  {
    if ops == [] then w' == w
    else Legal(w, ops[0]) && Run(Apply(w, ops[0]), ops[1..], w')
  }

  lemma {:induction false} RunInv(w: World, ops: seq<Op>, w': World)
    requires Inv(w) && Run(w, ops, w')
    ensures Inv(w')
    decreases |ops|
  {
    if ops != [] {
      ApplyInv(w, ops[0]);
      RunInv(Apply(w, ops[0]), ops[1..], w');
    }
  }

  // ---- the regions of every space -------------------------------------------

  ghost predicate AllPlaced(w: World) {
    forall a :: a in w.spaces ==> VmMap.Placed(w.spaces[a].regions)
  }

  lemma ApplyPlaced(w: World, op: Op)
    requires AllPlaced(w) && Legal(w, op) && (op.AddRegion? ==> op.region.End() < USIZE_RANGE)
    ensures AllPlaced(Apply(w, op))
    ensures op.Fork? ==> Apply(w, op).spaces[op.child].regions == w.spaces[op.parent].regions
  {
    match op
    case AddRegion(id, r) =>
      if VmMap.Accepts(w.spaces[id].regions, r) { VmMap.InsertPlacedIff(w.spaces[id].regions, r); }
    case Fork(parent, child) => CopiedIsSame(w.spaces[parent].regions);
    case Unmap(id, start, len) => VmMap.OutsidePlaced(w.spaces[id].regions, start, start + len);
    case _ =>
  }

  /** In every run whose added regions end within the address space, the regions of every
      space stay apart, so each fork gives the child exactly its parent's regions. */
  lemma {:induction false} RunPlaced(w: World, ops: seq<Op>, w': World)
    requires AllPlaced(w) && Run(w, ops, w')
    requires forall i :: 0 <= i < |ops| && ops[i].AddRegion? ==> ops[i].region.End() < USIZE_RANGE
    ensures AllPlaced(w')
    ensures forall parent, child :: Legal(w', Fork(parent, child))
              ==> Apply(w', Fork(parent, child)).spaces[child].regions == w'.spaces[parent].regions
    decreases |ops|
  {
    if ops == [] {
      forall parent, child | Legal(w', Fork(parent, child))
        ensures Apply(w', Fork(parent, child)).spaces[child].regions == w'.spaces[parent].regions
      {
        ApplyPlaced(w', Fork(parent, child));
      }
    } else {
      ApplyPlaced(w, ops[0]);
      RunPlaced(Apply(w, ops[0]), ops[1..], w');
    }
  }

  /** Page `p` of space `a` is mapped to the frame at `pa`, and no other page of any
      space is. */
  ghost predicate SoleOwner(w: World, a: nat, p: nat, pa: nat) {
    && Maps(w, a, p) && PhysAddr(At(w, a, p).frame) == pa
    && (forall b: nat, q: nat :: Maps(w, b, q) && (b, q) != (a, p) ==> PhysAddr(At(w, b, q).frame) != pa)
  }

  /** In every run from an empty system, over a pool of any size, the frame a write
      fault returns is mapped by the faulting page alone. */
  lemma WrittenFramesAreExclusive(slots: seq<bool>, ops: seq<Op>, w: World, id: nat, addr: nat)
    requires Run(World(map[], slots), ops, w) && id in w.spaces
    ensures var r := FaultSpec(w.spaces[id], w.slots, addr).2;
            r.Ok? ==> SoleOwner(Apply(w, Fault(id, addr)), id, PageOf(addr), r.value)
  {
    RunInv(World(map[], slots), ops, w);
    FaultInv(w, id, addr);
  }
}
