/** Copy-on-write page-table extension: shared mappings with per-frame read and write
    reference counts, observationally equal to copying each page when it is mapped. */
module CowExt {
  import opened Common

  /** A page-table entry: target frame, the writable bit, and the two shared bits. */
  datatype Entry = Entry(frame: nat, writable: bool, readonlyShared: bool, writableShared: bool) {
    predicate Shared() {
      readonlyShared || writableShared
    }
  }

  type Page = seq<byte>

  /** Page table (by page number), reference counts and physical memory (by frame number). */
  datatype State = State(table: map<nat, Entry>, rc: map<nat, (int, int)>, mem: map<nat, Page>)

  const U16_MAX: int := 0xFFFF

  function Counts(rc: map<nat, (int, int)>, f: nat): (int, int) {
    if f in rc then rc[f] else (0, 0)
  }

  function Adjust(rc: map<nat, (int, int)>, f: nat, dr: int, dw: int): map<nat, (int, int)> {
    rc[f := (Counts(rc, f).0 + dr, Counts(rc, f).1 + dw)]
  }

  // ---- operations on values -------------------------------------------------

  function MapPrivate(s: State, v: nat, f: nat): State {
    s.(table := s.table[v := Entry(f, true, false, false)])
  }

  function MapShared(s: State, v: nat, f: nat, writable: bool): State {
    s.(table := s.table[v := Entry(f, false, !writable, writable)],
       rc := if writable then Adjust(s.rc, f, 0, 1) else Adjust(s.rc, f, 1, 0))
  }

  function Unmap(s: State, v: nat): State
    requires v in s.table
  {
    var e := s.table[v];
    s.(table := s.table - {v},
       rc := if e.readonlyShared then Adjust(s.rc, e.frame, -1, 0)
             else if e.writableShared then Adjust(s.rc, e.frame, 0, -1)
             else s.rc)
  }

  /** The page-fault handler, given the frame the allocator would return. */
  function Fault(s: State, v: nat, newFrame: nat): (State, bool)
    requires v in s.table ==> s.table[v].frame in s.mem
  {
    if v !in s.table || !s.table[v].Shared() then (s, false)
    else
      var e := s.table[v];
      if Counts(s.rc, e.frame) == (0, 1) then
        (s.(table := s.table[v := Entry(e.frame, true, false, false)], rc := Adjust(s.rc, e.frame, 0, -1)), true)
      else
        var data := s.mem[e.frame];
        var s' := MapPrivate(Unmap(s, v), v, newFrame);
        (s'.(mem := s'.mem[newFrame := data]), true)
  }

  function Poke(p: Page, off: nat, b: byte): (r: Page)
    requires off < |p|
    ensures |r| == |p|
  {
    p[..off] + [b] + p[off + 1..]
  }

  function PokeMem(s: State, v: nat, off: nat, b: byte): State
    requires v in s.table && s.table[v].frame in s.mem && off < |s.mem[s.table[v].frame]|
  {
    s.(mem := s.mem[s.table[v].frame := Poke(s.mem[s.table[v].frame], off, b)])
  }

  /** A store through the page table: fault first when the page is not writable. */
  function Store(s: State, v: nat, off: nat, b: byte, newFrame: nat): State
    requires v in s.table && s.table[v].frame in s.mem
  {
    var s' := if s.table[v].writable then s else Fault(s, v, newFrame).0;
    if v in s'.table && s'.table[v].frame in s'.mem && off < |s'.mem[s'.table[v].frame]| then
      PokeMem(s', v, off, b)
    else s'
  }

  // ---- invariant ------------------------------------------------------------

  /** Entry `e` is a reference to frame `f`, of the write kind or the read kind. */
  predicate Refers(e: Entry, f: nat, write: bool) {
    e.frame == f && (if write then e.writableShared else e.readonlyShared)
  }

  ghost function Refs(table: map<nat, Entry>, f: nat, write: bool): set<nat> {
    set v | v in table && Refers(table[v], f, write)
  }

  ghost function Readers(table: map<nat, Entry>, f: nat): set<nat> {
    Refs(table, f, false)
  }

  ghost function Writers(table: map<nat, Entry>, f: nat): set<nat> {
    Refs(table, f, true)
  }

  ghost predicate CountExact(s: State, f: nat) {
    Counts(s.rc, f) == (|Readers(s.table, f)|, |Writers(s.table, f)|)
  }

  ghost predicate CountsExact(s: State) {
    forall f :: CountExact(s, f)
  }

  /** Exactly the private pages are writable, and a private frame has one page. */
  ghost predicate Exclusive(table: map<nat, Entry>) {
    && (forall v :: v in table ==> !(table[v].readonlyShared && table[v].writableShared))
    && (forall v :: v in table ==> (table[v].writable <==> !table[v].Shared()))
    && (forall v, w :: v in table && w in table && v != w && !table[v].Shared() ==> table[w].frame != table[v].frame)
  }

  ghost predicate Inv(s: State) {
    && CountsExact(s)
    && Exclusive(s.table)
    && (forall v :: v in s.table ==> s.table[v].frame in s.mem)
    && (forall f :: f in s.mem ==> |s.mem[f]| == PAGE_SZ)
  }

  ghost predicate Unused(s: State, f: nat) {
    f in s.mem && forall v :: v in s.table ==> s.table[v].frame != f
  }

  // ---- the object -----------------------------------------------------------

  class CowPageTable {
    var table: map<nat, Entry>
    var rc: map<nat, (int, int)>
    var mem: map<nat, Page>

    ghost function Value(): State
      reads this
    {
      State(table, rc, mem)
    }

    method MapToShared(v: nat, f: nat, writable: bool)
      requires v !in table
      modifies this`table, this`rc
      ensures Value() == MapShared(old(Value()), v, f, writable)
    {
      var entry := Entry(f, true, false, false);
      entry := entry.(writable := false);
      entry := entry.(writableShared := writable, readonlyShared := !writable);
      table := table[v := entry];
      if writable {
        rc := Adjust(rc, f, 0, 1);
      } else {
        rc := Adjust(rc, f, 1, 0);
      }
    }

    method UnmapShared(v: nat)
      requires v in table && Inv(Value())
      modifies this`table, this`rc
      ensures Value() == Unmap(old(Value()), v)
    {
      var entry := table[v];
      CountedFrame(Value(), v);
      if entry.readonlyShared {
        rc := Adjust(rc, entry.frame, -1, 0);
      } else if entry.writableShared {
        rc := Adjust(rc, entry.frame, 0, -1);
      }
      table := table - {v};
    }

    method PageFaultHandler(v: nat, newFrame: nat) returns (handled: bool)
      requires Inv(Value()) && Unused(Value(), newFrame)
      modifies this
      ensures (Value(), handled) == Fault(old(Value()), v, newFrame)
    {
      if v !in table {
        return false;
      }
      var entry := table[v];
      if !entry.readonlyShared && !entry.writableShared {
        return false;
      }
      var frame := entry.frame;
      if Counts(rc, frame).0 == 0 && Counts(rc, frame).1 == 1 {
        entry := entry.(readonlyShared := false, writableShared := false);
        entry := entry.(writable := true);
        table := table[v := entry];
        rc := Adjust(rc, frame, 0, -1);
        return true;
      }
      var temp := mem[frame];
      UnmapShared(v);
      table := table[v := Entry(newFrame, true, false, false)];
      mem := mem[newFrame := temp];
      return true;
    }
  }

  /** The count a shared entry will give back is there to give back: `unwrap` finds the
      frame and the subtraction does not go below zero. */
  lemma CountedFrame(s: State, v: nat)
    requires Inv(s) && v in s.table
    ensures s.table[v].readonlyShared ==> s.table[v].frame in s.rc && Counts(s.rc, s.table[v].frame).0 >= 1
    ensures s.table[v].writableShared ==> s.table[v].frame in s.rc && Counts(s.rc, s.table[v].frame).1 >= 1
  {
    var f := s.table[v].frame;
    assert CountExact(s, f);
    if s.table[v].readonlyShared { assert v in Readers(s.table, f); }
    if s.table[v].writableShared { assert v in Writers(s.table, f); }
  }

  // ---- preservation ---------------------------------------------------------

  /** A new entry counts once, for its own frame and kind. */
  lemma AddedRef(table: map<nat, Entry>, v: nat, e: Entry, f: nat, write: bool)
    requires v !in table
    ensures |Refs(table[v := e], f, write)| == |Refs(table, f, write)| + (if Refers(e, f, write) then 1 else 0)
  {
    AddedMember(table, v, e, f, write);
    assert v !in Refs(table, f, write);
  }

  lemma AddedMember(table: map<nat, Entry>, v: nat, e: Entry, f: nat, write: bool)
    requires v !in table
    ensures Refs(table[v := e], f, write) == Refs(table, f, write) + (if Refers(e, f, write) then {v} else {})
  {
  }

  lemma AddedEntry(table: map<nat, Entry>, v: nat, e: Entry, f: nat)
    requires v !in table
    ensures |Readers(table[v := e], f)| == |Readers(table, f)| + (if e.frame == f && e.readonlyShared then 1 else 0)
    ensures |Writers(table[v := e], f)| == |Writers(table, f)| + (if e.frame == f && e.writableShared then 1 else 0)
  {
    AddedRef(table, v, e, f, false);
    AddedRef(table, v, e, f, true);
  }

  lemma PrivateMapCounts(s: State, v: nat, f: nat)
    requires CountsExact(s) && v !in s.table
    ensures CountsExact(MapPrivate(s, v, f))
  {
    forall g
      ensures CountExact(MapPrivate(s, v, f), g)
    {
      assert CountExact(s, g);
      AddedEntry(s.table, v, Entry(f, true, false, false), g);
    }
  }

  lemma SharedMapCounts(s: State, v: nat, f: nat, writable: bool)
    requires CountsExact(s) && v !in s.table
    ensures CountsExact(MapShared(s, v, f, writable))
  {
    forall g
      ensures CountExact(MapShared(s, v, f, writable), g)
    {
      assert CountExact(s, g);
      AddedEntry(s.table, v, Entry(f, false, !writable, writable), g);
    }
  }

  lemma UnmapCounts(s: State, v: nat)
    requires CountsExact(s) && v in s.table && !(s.table[v].readonlyShared && s.table[v].writableShared)
    ensures CountsExact(Unmap(s, v))
  {
    assert (s.table - {v})[v := s.table[v]] == s.table;
    forall g
      ensures CountExact(Unmap(s, v), g)
    {
      assert CountExact(s, g);
      AddedEntry(s.table - {v}, v, s.table[v], g);
    }
  }

  /** A frame with no reader and one writer belongs to that writer's page alone. */
  lemma SoleWriterIsAlone(s: State, v: nat, w: nat)
    requires Inv(s) && v in s.table && w in s.table && w != v && s.table[v].Shared()
    requires Counts(s.rc, s.table[v].frame) == (0, 1)
    ensures s.table[w].frame != s.table[v].frame && s.table[v].writableShared
  {
    var f := s.table[v].frame;
    assert CountExact(s, f);
    assert Readers(s.table, f) == {};
    assert v !in Readers(s.table, f);
    assert v in Writers(s.table, f);
    if s.table[w].frame == f {
      assert w !in Readers(s.table, f);
      if s.table[w].writableShared {
        assert {v, w} <= Writers(s.table, f);
        SubsetSize({v, w}, Writers(s.table, f));
      }
    }
  }

  lemma SubsetSize(a: set<nat>, b: set<nat>)
    requires a <= b
    ensures |a| <= |b|
  {
    assert b == a + (b - a);
  }

  lemma ClaimCounts(s: State, v: nat)
    requires Inv(s) && v in s.table && s.table[v].Shared() && Counts(s.rc, s.table[v].frame) == (0, 1)
    ensures CountsExact(Fault(s, v, 0).0)
  {
    var e := s.table[v];
    assert CountExact(s, e.frame);
    assert v in Readers(s.table, e.frame) <==> e.readonlyShared;
    assert Readers(s.table, e.frame) == {};
    var t := Unmap(s, v);
    UnmapCounts(s, v);
    PrivateMapCounts(t, v, e.frame);
    assert Fault(s, v, 0).0.table == MapPrivate(t, v, e.frame).table;
  }

  lemma SameCounts(s: State, s': State)
    requires CountsExact(s) && s'.table == s.table && s'.rc == s.rc
    ensures CountsExact(s')
  {
    forall g
      ensures CountExact(s', g)
    {
      assert CountExact(s, g);
    }
  }

  lemma FaultInv(s: State, v: nat, newFrame: nat)
    requires Inv(s) && Unused(s, newFrame)
    ensures Inv(Fault(s, v, newFrame).0)
  {
    if v in s.table && s.table[v].Shared() {
      if Counts(s.rc, s.table[v].frame) == (0, 1) {
        ClaimCounts(s, v);
        forall w | w in s.table && w != v
          ensures s.table[w].frame != s.table[v].frame
        {
          SoleWriterIsAlone(s, v, w);
        }
      } else {
        UnmapCounts(s, v);
        PrivateMapCounts(Unmap(s, v), v, newFrame);
        SameCounts(MapPrivate(Unmap(s, v), v, newFrame), Fault(s, v, newFrame).0);
      }
    }
  }

  // ---- runs, against eager copying ------------------------------------------

  datatype Op =
    | Map(v: nat, f: nat)
    | Share(v: nat, f: nat, writable: bool)
    | Drop(v: nat)
    | PageFault(v: nat, newFrame: nat)
    | Write(v: nat, off: nat, b: byte, newFrame: nat)

  /** What callers and the frame allocator guarantee: pages are mapped once, allocated
      frames are unused, a privately mapped frame is not shared, and no frame gets more
      than 65535 references of a kind. */
  ghost predicate Legal(s: State, op: Op) {
    match op
    case Map(v, f) => v !in s.table && Unused(s, f)
    case Share(v, f, w) =>
      && v !in s.table && f in s.mem
      && (forall x :: x in s.table && s.table[x].frame == f ==> s.table[x].Shared())
      && (if w then Counts(s.rc, f).1 else Counts(s.rc, f).0) < U16_MAX
    case Drop(v) => v in s.table
    case PageFault(v, n) => Unused(s, n)
    case Write(v, off, b, n) => v in s.table && off < PAGE_SZ && Unused(s, n)
  }

  ghost function Apply(s: State, op: Op): State
    requires Inv(s) && Legal(s, op)
  {
    match op
    case Map(v, f) => MapPrivate(s, v, f)
    case Share(v, f, w) => MapShared(s, v, f, w)
    case Drop(v) => Unmap(s, v)
    case PageFault(v, n) => Fault(s, v, n).0
    case Write(v, off, b, n) => Store(s, v, off, b, n)
  }

  lemma ApplyInv(s: State, op: Op)
    requires Inv(s) && Legal(s, op)
    ensures Inv(Apply(s, op))
  {
    match op
    case Map(v, f) => PrivateMapCounts(s, v, f);
    case Share(v, f, w) => SharedMapCounts(s, v, f, w);
    case Drop(v) => UnmapCounts(s, v);
    case PageFault(v, n) => FaultInv(s, v, n);
    case Write(v, off, b, n) =>
      FaultInv(s, v, n);
      StoreInv(if s.table[v].writable then s else Fault(s, v, n).0, v, off, b);
  }

  lemma StoreInv(s: State, v: nat, off: nat, b: byte)
    requires Inv(s) && v in s.table && off < PAGE_SZ
    ensures Inv(PokeMem(s, v, off, b))
  {
    SameCounts(s, PokeMem(s, v, off, b));
  }

  /** What each mapped page reads as. */
  ghost function View(s: State): map<nat, Page>
    requires Inv(s)
  {
    map v | v in s.table :: s.mem[s.table[v].frame]
  }

  /** The eager machine: a mapping copies the frame's content, a write changes one copy. */
  ghost function Eager(view: map<nat, Page>, op: Op, content: Page): map<nat, Page> {
    match op
    case Map(v, _) => view[v := content]
    case Share(v, _, _) => view[v := content]
    case Drop(v) => view - {v}
    case PageFault(_, _) => view
    case Write(v, off, b, _) =>
      if v in view && off < |view[v]| then view[v := Poke(view[v], off, b)] else view
  }

  /** The frame content an operation maps. */
  ghost function Mapped(s: State, op: Op): Page
    requires Legal(s, op)
  {
    match op
    case Map(_, f) => s.mem[f]
    case Share(_, f, _) => s.mem[f]
    case _ => []
  }

  lemma FaultKeepsView(s: State, v: nat, newFrame: nat)
    requires Inv(s) && Unused(s, newFrame)
    ensures Inv(Fault(s, v, newFrame).0)
    ensures View(Fault(s, v, newFrame).0) == View(s)
    ensures v in s.table ==> Fault(s, v, newFrame).0.table[v].writable
    ensures Fault(s, v, newFrame).1 <==> v in s.table && s.table[v].Shared()
  {
    FaultInv(s, v, newFrame);
  }

  lemma StoreView(s: State, v: nat, off: nat, b: byte)
    requires Inv(s) && v in s.table && s.table[v].writable && off < PAGE_SZ
    ensures var s' := PokeMem(s, v, off, b);
            Inv(s') && View(s') == View(s)[v := Poke(View(s)[v], off, b)]
  {
    StoreInv(s, v, off, b);
  }

  /** One step of the copy-on-write machine is one step of the eager machine. */
  lemma StepIsEager(s: State, op: Op)
    requires Inv(s) && Legal(s, op)
    ensures Inv(Apply(s, op))
    ensures View(Apply(s, op)) == Eager(View(s), op, Mapped(s, op))
  {
    ApplyInv(s, op);
    match op
    case Map(v, f) => MapIsEager(s, op);
    case Share(v, f, w) => MapIsEager(s, op);
    case Drop(v) => DropIsEager(s, v);
    case PageFault(v, n) => FaultKeepsView(s, v, n);
    case Write(v, off, b, n) => WriteIsEager(s, v, off, b, n);
  }

  lemma MapIsEager(s: State, op: Op)
    requires Inv(s) && Legal(s, op) && Inv(Apply(s, op)) && (op.Map? || op.Share?)
    ensures View(Apply(s, op)) == View(s)[op.v := s.mem[op.f]]
  {
  }

  lemma DropIsEager(s: State, v: nat)
    requires Inv(s) && v in s.table && Inv(Unmap(s, v))
    ensures View(Unmap(s, v)) == View(s) - {v}
  {
  }

  lemma WriteIsEager(s: State, v: nat, off: nat, b: byte, n: nat)
    requires Inv(s) && Legal(s, Write(v, off, b, n))
    ensures var s' := Store(s, v, off, b, n);
            Inv(s') && View(s') == View(s)[v := Poke(View(s)[v], off, b)]
  {
    FaultKeepsView(s, v, n);
    var mid := if s.table[v].writable then s else Fault(s, v, n).0;
    assert v in View(mid) && v in mid.table;
    StoreView(mid, v, off, b);
    assert Store(s, v, off, b, n) == PokeMem(mid, v, off, b);
  }

  ghost predicate LegalRun(s: State, ops: seq<Op>)
    decreases |ops|, 0
  {
    Inv(s) && (ops == [] || (LegalRun(s, ops[..|ops| - 1]) && Legal(Exec(s, ops[..|ops| - 1]), ops[|ops| - 1])))
  }

  ghost function Exec(s: State, ops: seq<Op>): (r: State)
    requires LegalRun(s, ops)
    ensures Inv(r)
    decreases |ops|, 1
  {
    if ops == [] then s
    else
      ApplyInv(Exec(s, ops[..|ops| - 1]), ops[|ops| - 1]);
      Apply(Exec(s, ops[..|ops| - 1]), ops[|ops| - 1])
  }

  /** The private copy page `v` would have had all along: the content of its frame when
      it was mapped, changed by its own writes and by nothing else. */
  ghost function OwnCopy(s: State, ops: seq<Op>, v: nat): Option<Page>
    requires LegalRun(s, ops)
    decreases |ops|
  {
    if ops == [] then (if v in s.table then Some(View(s)[v]) else None)
    else
      var before := ops[..|ops| - 1];
      var prev := OwnCopy(s, before, v);
      match ops[|ops| - 1]
      case Map(w, f) => if w == v then Some(Exec(s, before).mem[f]) else prev
      case Share(w, f, _) => if w == v then Some(Exec(s, before).mem[f]) else prev
      case Drop(w) => if w == v then None else prev
      case PageFault(_, _) => prev
      case Write(w, off, b, _) =>
        if w == v && prev.Some? && off < |prev.value| then Some(Poke(prev.value, off, b)) else prev
  }

  /** Every run: each page reads as if it had its own copy from the moment it was mapped. */
  lemma {:induction false} EveryPageReadsItsOwnCopy(s: State, ops: seq<Op>, v: nat)
    requires LegalRun(s, ops)
    ensures v in Exec(s, ops).table <==> OwnCopy(s, ops, v).Some?
    ensures v in Exec(s, ops).table ==> View(Exec(s, ops))[v] == OwnCopy(s, ops, v).value
    decreases |ops|
  {
    if ops != [] {
      var before, op := ops[..|ops| - 1], ops[|ops| - 1];
      EveryPageReadsItsOwnCopy(s, before, v);
      StepIsEager(Exec(s, before), op);
      var t := Exec(s, before);
      assert v in t.table <==> v in View(t);
      assert v in Exec(s, ops).table <==> v in View(Exec(s, ops));
    }
  }

  /** The last write reference is not copied; every other fault leaves the shared frame as it was. */
  lemma FaultCopiesUnlessLast(s: State, v: nat, newFrame: nat)
    requires Inv(s) && Unused(s, newFrame) && v in s.table && s.table[v].Shared()
    ensures var (s', handled) := Fault(s, v, newFrame);
            var f := s.table[v].frame;
            && handled && !s'.table[v].Shared()
            && (s'.table[v].frame == f <==> Readers(s.table, f) == {} && Writers(s.table, f) == {v})
            && (s'.table[v].frame == f || s'.table[v].frame == newFrame)
            && s'.mem[f] == s.mem[f]
  {
    var f := s.table[v].frame;
    assert CountExact(s, f);
    assert v in Readers(s.table, f) || v in Writers(s.table, f);
    if Counts(s.rc, f) == (0, 1) {
      assert Readers(s.table, f) == {};
      forall w | w in Writers(s.table, f)
        ensures w == v
      {
        if w != v { SoleWriterIsAlone(s, v, w); }
      }
      assert Writers(s.table, f) == {v};
    }
  }

  /** Which reference a shared mapping makes: the fault of a page shared alone keeps the frame if
      it was shared writable, and moves to the new frame if it was shared read-only. */
  lemma LoneSharedFault(s: State, v: nat, f: nat, writable: bool, newFrame: nat)
    requires Inv(s) && v !in s.table && Unused(s, f) && Unused(s, newFrame) && newFrame != f
    ensures var t := MapShared(s, v, f, writable);
            var (t', handled) := Fault(t, v, newFrame);
            && t.table[v].frame == f && !t.table[v].writable
            && handled && t'.table[v].writable
            && t'.table[v].frame == (if writable then f else newFrame)
            && t'.mem[t'.table[v].frame] == s.mem[f]
  {
    assert CountExact(s, f);
    NoRefs(s, f);
  }

  lemma NoRefs(s: State, f: nat)
    requires Unused(s, f)
    ensures Refs(s.table, f, false) == {} && Refs(s.table, f, true) == {}
  {
  }
}
