/** The asynchronous counting semaphore on top of the bus. */
module Semaphore {
  import opened Events

  datatype Sem = Sem(count: int, removed: bool, bus: Bus)

  datatype Poll = Acquired | Gone | Pending

  const CAN: Event := {SEMAPHORE_CAN_ACQUIRE}
  const REMOVED: Event := {SEMAPHORE_REMOVED}

  /** One poll: the new state, the result and the tasks that clearing the flag wakes. */
  function AcquireSpec(s: Sem, waker: nat): (Sem, Poll, seq<nat>) {
    if s.removed then (s, Gone, [])
    else if s.count >= 1 then
      var (bus, woken) := if s.count - 1 < 1 then ChangeSpec(s.bus, CAN, {}) else (s.bus, []);
      (Sem(s.count - 1, false, bus), Acquired, woken)
    else (s.(bus := s.bus.(callbacks := s.bus.callbacks + [Always(waker)])), Pending, [])
  }

  /** `release` and `set` end alike: raise the flag when the count allows an acquire. */
  function Recount(s: Sem, count: int): (Sem, seq<nat>) {
    if count >= 1 then
      var (bus, woken) := ChangeSpec(s.bus, {}, CAN);
      (Sem(count, s.removed, bus), woken)
    else (s.(count := count), [])
  }

  function ReleaseSpec(s: Sem): (Sem, seq<nat>) {
    Recount(s, s.count + 1)
  }

  function RemoveSpec(s: Sem): (Sem, seq<nat>) {
    var (bus, woken) := ChangeSpec(s.bus, {}, REMOVED);
    (Sem(s.count, true, bus), woken)
  }

  class Semaphore {
    var count: int
    var removed: bool
    const bus: EventBus

    ghost function Value(): Sem
      reads this, bus
    {
      Sem(count, removed, bus.Value())
    }

    constructor (count: int)
      ensures fresh(bus) && Value() == Sem(count, false, Bus({}, []))
    {
      this.count, removed := count, false;
      bus := new EventBus();
    }

    /** One poll of the acquire future. */
    method PollAcquire(waker: nat) returns (r: Poll, woken: seq<nat>)
      modifies this, bus
      ensures (Value(), r, woken) == AcquireSpec(old(Value()), waker)
    {
      woken := [];
      if removed {
        return Gone, [];
      } else if count >= 1 {
        count := count - 1;
        if count < 1 {
          woken := bus.Change(CAN, {});
        }
        return Acquired, woken;
      }
      bus.Subscribe(Always(waker));
      return Pending, [];
    }

    method Release() returns (woken: seq<nat>)
      modifies this, bus
      ensures (Value(), woken) == ReleaseSpec(old(Value()))
    {
      woken := [];
      count := count + 1;
      if count >= 1 {
        woken := bus.Change({}, CAN);
      }
    }

    method Remove() returns (woken: seq<nat>)
      modifies this, bus
      ensures (Value(), woken) == RemoveSpec(old(Value()))
    {
      removed := true;
      woken := bus.Change({}, REMOVED);
    }

    method Set(value: int) returns (woken: seq<nat>)
      modifies this, bus
      ensures (Value(), woken) == Recount(old(Value()), value)
    {
      woken := [];
      count := value;
      if count >= 1 {
        woken := bus.Change({}, CAN);
      }
    }
  }

  // ---- runs -----------------------------------------------------------------

  datatype Op = AcquirePoll(waker: nat) | ReleaseOp | RemoveOp | SetOp(value: int)

  function Apply(s: Sem, op: Op): (Sem, seq<nat>) {
    match op
    case AcquirePoll(w) => (AcquireSpec(s, w).0, AcquireSpec(s, w).2)
    case ReleaseOp => ReleaseSpec(s)
    case RemoveOp => RemoveSpec(s)
    case SetOp(value) => Recount(s, value)
  }

  function Exec(s: Sem, ops: seq<Op>): Sem {
    if ops == [] then s else Apply(Exec(s, ops[..|ops| - 1]), ops[|ops| - 1]).0
  }

  function New(count: int): Sem {
    Sem(count, false, Bus({}, []))
  }

  /** The value of the last `set`, or the initial count. */
  function Base(s: Sem, ops: seq<Op>): int {
    if ops == [] then s.count
    else if ops[|ops| - 1].SetOp? then ops[|ops| - 1].value
    else Base(s, ops[..|ops| - 1])
  }

  /** Releases minus successful acquires since the last `set`. */
  function Net(s: Sem, ops: seq<Op>): int {
    if ops == [] || ops[|ops| - 1].SetOp? then 0
    else
      var before := Exec(s, ops[..|ops| - 1]);
      Net(s, ops[..|ops| - 1])
      + (match ops[|ops| - 1]
         case AcquirePoll(w) => if AcquireSpec(before, w).1 == Acquired then -1 else 0
         case ReleaseOp => 1
         case _ => 0)
  }

  /** Over any run the count is the value last set, or the initial one, plus the releases
      and minus the successful acquires since. */
  lemma {:induction false} CountIsConserved(s: Sem, ops: seq<Op>)
    ensures Exec(s, ops).count == Base(s, ops) + Net(s, ops)
  {
    if ops != [] {
      CountIsConserved(s, ops[..|ops| - 1]);
    }
  }

  /** A registered waiter has nothing to wait for: the lost wake-up. */
  predicate LostWakeup(s: Sem) {
    s.bus.callbacks != [] && (s.count >= 1 || s.removed)
  }

  /** No waiter is lost, and the can-acquire flag is not up for a count that allows none. */
  predicate Safe(s: Sem) {
    !LostWakeup(s) && (SEMAPHORE_CAN_ACQUIRE in s.bus.event && !s.removed ==> s.count >= 1)
  }

  /** True in every run: the removal flag says what it should, and only acquirers wait. */
  ghost predicate Shape(s: Sem) {
    && (SEMAPHORE_REMOVED in s.bus.event <==> s.removed)
    && (forall h :: h in s.bus.callbacks ==> h.Always?)
  }

  lemma {:induction false} NoneKept(cs: seq<Handler>, ev: Event)
    requires forall h :: h in cs ==> h.Always?
    ensures Kept(cs, ev) == []
  {
    if cs != [] {
      NoneKept(cs[..|cs| - 1], ev);
    }
  }

  /** Any change of the flags wakes and removes every semaphore waiter. */
  lemma ChangeWakesAll(b: Bus, reset: Event, add: Event)
    requires forall h :: h in b.callbacks ==> h.Always?
    requires b.event - reset + add != b.event
    ensures ChangeSpec(b, reset, add).0.callbacks == []
    ensures forall h :: h in b.callbacks ==> h.waker in ChangeSpec(b, reset, add).1
  {
    NoneKept(b.callbacks, b.event - reset + add);
  }

  lemma RaiseFlag(b: Bus, f: Flag)
    requires f !in b.event
    ensures b.event - {} + {f} != b.event
  {
    assert f in b.event - {} + {f};
  }

  lemma ChangeShape(s: Sem, reset: Event, add: Event)
    requires Shape(s)
    ensures forall h :: h in ChangeSpec(s.bus, reset, add).0.callbacks ==> h.Always?
    ensures ChangeSpec(s.bus, reset, add).0.event == s.bus.event - reset + add
  {
  }

  lemma ApplyShape(s: Sem, op: Op)
    requires Shape(s)
    ensures Shape(Apply(s, op).0)
  {
    ChangeShape(s, CAN, {});
    ChangeShape(s, {}, CAN);
    ChangeShape(s, {}, REMOVED);
  }

  lemma {:induction false} ExecShape(s: Sem, ops: seq<Op>)
    requires Shape(s)
    ensures Shape(Exec(s, ops))
  {
    if ops != [] {
      ExecShape(s, ops[..|ops| - 1]);
      ApplyShape(Exec(s, ops[..|ops| - 1]), ops[|ops| - 1]);
    }
  }

  /** Setting or reaching a count is safe unless it is below one with the flag up; a count of
      one or more wakes every waiter. */
  lemma RecountSafeIff(s: Sem, count: int)
    requires Shape(s) && Safe(s)
    ensures Safe(Recount(s, count).0) <==> !(count < 1 && SEMAPHORE_CAN_ACQUIRE in s.bus.event && !s.removed)
    ensures count >= 1 ==> Recount(s, count).0.bus.callbacks == []
    ensures count >= 1 ==> forall h :: h in s.bus.callbacks ==> h.waker in Recount(s, count).1
  {
    if count >= 1 {
      if SEMAPHORE_CAN_ACQUIRE !in s.bus.event {
        RaiseFlag(s.bus, SEMAPHORE_CAN_ACQUIRE);
        ChangeWakesAll(s.bus, {}, CAN);
      } else {
        assert s.bus.event - {} + CAN == s.bus.event;
      }
    }
  }

  lemma RemoveSafe(s: Sem)
    requires Shape(s) && Safe(s)
    ensures Safe(RemoveSpec(s).0) && RemoveSpec(s).0.bus.callbacks == []
    ensures forall h :: h in s.bus.callbacks ==> h.waker in RemoveSpec(s).1
  {
    if s.removed {
      assert s.bus.event - {} + REMOVED == s.bus.event;
    } else {
      RaiseFlag(s.bus, SEMAPHORE_REMOVED);
      ChangeWakesAll(s.bus, {}, REMOVED);
    }
  }

  lemma AcquireSafe(s: Sem, waker: nat)
    requires Shape(s) && Safe(s)
    ensures Safe(AcquireSpec(s, waker).0)
  {
  }

  /** A `set` below one while the can-acquire flag is up. */
  predicate Lowers(s: Sem, op: Op) {
    op.SetOp? && op.value < 1 && SEMAPHORE_CAN_ACQUIRE in s.bus.event && !s.removed
  }

  lemma ApplySafeIff(s: Sem, op: Op)
    requires Shape(s) && Safe(s)
    ensures Safe(Apply(s, op).0) <==> !Lowers(s, op)
  {
    match op
    case AcquirePoll(w) => AcquireSafe(s, w);
    case ReleaseOp => RecountSafeIff(s, s.count + 1);
    case RemoveOp => RemoveSafe(s);
    case SetOp(value) => RecountSafeIff(s, value);
  }

  predicate RunLowers(s: Sem, ops: seq<Op>) {
    ops != [] && (RunLowers(s, ops[..|ops| - 1]) || Lowers(Exec(s, ops[..|ops| - 1]), ops[|ops| - 1]))
  }

  /** Safe after every step. */
  predicate AlwaysSafe(s: Sem, ops: seq<Op>) {
    Safe(Exec(s, ops)) && (ops == [] || AlwaysSafe(s, ops[..|ops| - 1]))
  }

  /** A run stays safe throughout if and only if no `set` lowers the count below one while
      the flag is up. */
  lemma {:induction false} SafeIffNeverLowered(s: Sem, ops: seq<Op>)
    requires Shape(s) && Safe(s)
    ensures AlwaysSafe(s, ops) <==> !RunLowers(s, ops)
  {
    if ops != [] {
      var n := |ops| - 1;
      SafeIffNeverLowered(s, ops[..n]);
      ExecShape(s, ops[..n]);
      if AlwaysSafe(s, ops[..n]) {
        ApplySafeIff(Exec(s, ops[..n]), ops[n]);
      }
    }
  }

  /** No lost wake-up: in every run without such a `set`, a registered waiter means the count
      is below one and the semaphore is not removed, and the release that reaches one or the
      removal wakes every registered waiter and leaves none registered. */
  lemma NoLostWakeup(count: int, ops: seq<Op>)
    requires !RunLowers(New(count), ops)
    ensures var s := Exec(New(count), ops);
            && !LostWakeup(s)
            && (s.count + 1 >= 1 ==>
                  ReleaseSpec(s).0.bus.callbacks == []
                  && forall h :: h in s.bus.callbacks ==> h.waker in ReleaseSpec(s).1)
            && RemoveSpec(s).0.bus.callbacks == []
            && (forall h :: h in s.bus.callbacks ==> h.waker in RemoveSpec(s).1)
  {
    var s := Exec(New(count), ops);
    SafeIffNeverLowered(New(count), ops);
    ExecShape(New(count), ops);
    RecountSafeIff(s, s.count + 1);
    RemoveSafe(s);
  }

  // ---- the task that polled -------------------------------------------------

  /** The three results of a poll and what each leaves behind. */
  lemma PollExact(s: Sem, w: nat)
    ensures var (t, r, woken) := AcquireSpec(s, w);
            && (r == Gone <==> s.removed)
            && (r == Acquired <==> !s.removed && s.count >= 1)
            && (r == Pending <==> !s.removed && s.count < 1)
            && t.removed == s.removed && t.count == s.count - (if r == Acquired then 1 else 0)
            && (r == Pending ==> Waits(t, w) && t.bus.event == s.bus.event && woken == [])
            && (r == Gone ==> t == s && woken == [])
            && (r == Acquired ==> (SEMAPHORE_CAN_ACQUIRE in t.bus.event
                                   <==> SEMAPHORE_CAN_ACQUIRE in s.bus.event && t.count >= 1))
  {
  }

  /** Task `w` is registered to be woken. */
  predicate Waits(s: Sem, w: nat) {
    exists h :: h in s.bus.callbacks && h.waker == w
  }

  /** Some step of the run wakes task `w`. */
  predicate WokenIn(s: Sem, ops: seq<Op>, w: nat) {
    ops != [] && (WokenIn(s, ops[..|ops| - 1], w) || w in Apply(Exec(s, ops[..|ops| - 1]), ops[|ops| - 1]).1)
  }

  lemma ChangeWakesOrKeeps(b: Bus, reset: Event, add: Event, h: Handler)
    requires h in b.callbacks
    ensures h in ChangeSpec(b, reset, add).0.callbacks || h.waker in ChangeSpec(b, reset, add).1
  {
  }

  /** A step wakes a waiting task or leaves it waiting. */
  lemma StepWakesOrKeeps(s: Sem, op: Op, w: nat)
    requires Waits(s, w)
    ensures Waits(Apply(s, op).0, w) || w in Apply(s, op).1
  {
    var h :| h in s.bus.callbacks && h.waker == w;
    ChangeWakesOrKeeps(s.bus, CAN, {}, h);
    ChangeWakesOrKeeps(s.bus, {}, CAN, h);
    ChangeWakesOrKeeps(s.bus, {}, REMOVED, h);
    var t := Apply(s, op).0;
    if h in t.bus.callbacks {
      assert Waits(t, w);
    }
  }

  lemma {:induction false} RunWakesOrKeeps(s: Sem, ops: seq<Op>, w: nat)
    requires Waits(s, w)
    ensures WokenIn(s, ops, w) || Waits(Exec(s, ops), w)
  {
    if ops != [] {
      RunWakesOrKeeps(s, ops[..|ops| - 1], w);
      if Waits(Exec(s, ops[..|ops| - 1]), w) {
        StepWakesOrKeeps(Exec(s, ops[..|ops| - 1]), ops[|ops| - 1], w);
      }
    }
  }

  lemma {:induction false} ExecConcat(s: Sem, a: seq<Op>, b: seq<Op>)
    ensures Exec(s, a + b) == Exec(Exec(s, a), b)
    ensures RunLowers(s, a + b) <==> RunLowers(s, a) || RunLowers(Exec(s, a), b)
    decreases |b|
  {
    if b == [] {
      assert a + b == a;
    } else {
      var n := |b| - 1;
      ExecConcat(s, a, b[..n]);
      assert (a + b)[..|a + b| - 1] == a + b[..n] && (a + b)[|a + b| - 1] == b[n];
    }
  }

  /** A task whose poll found nothing is not forgotten: over every later run without a `set`
      that lowers the count while the flag is up, some step wakes it, or the count is still
      below one, the semaphore is there, and the next release that reaches one and the removal
      both wake it. */
  lemma PendingTaskIsWoken(count: int, before: seq<Op>, w: nat, later: seq<Op>)
    requires AcquireSpec(Exec(New(count), before), w).1 == Pending
    requires !RunLowers(New(count), before + [AcquirePoll(w)] + later)
    ensures var s := Exec(New(count), before + [AcquirePoll(w)]);
            var t := Exec(s, later);
            || WokenIn(s, later, w)
            || (&& t.count < 1 && !t.removed
                && (t.count + 1 >= 1 ==> w in ReleaseSpec(t).1)
                && w in RemoveSpec(t).1)
  {
    var polled := before + [AcquirePoll(w)];
    var s := Exec(New(count), polled);
    assert polled[..|before|] == before;
    PollExact(Exec(New(count), before), w);
    RunWakesOrKeeps(s, later, w);
    var t := Exec(s, later);
    if Waits(t, w) {
      ExecConcat(New(count), polled, later);
      NoLostWakeup(count, polled + later);
    }
  }

  // ---- when a waiter can be stranded ----------------------------------------

  predicate WithoutSet(ops: seq<Op>) {
    forall i :: 0 <= i < |ops| ==> !ops[i].SetOp?
  }

  /** Some polls, releases and removals after `s` strand a waiter. */
  ghost predicate CanStrand(s: Sem) {
    exists ops :: WithoutSet(ops) && LostWakeup(Exec(s, ops))
  }

  function Releases(n: nat): (r: seq<Op>)
    ensures WithoutSet(r)
  {
    if n == 0 then [] else Releases(n - 1) + [ReleaseOp]
  }

  /** With the can-acquire flag stuck up, releases wake nobody. */
  lemma {:induction false} SilentReleases(s: Sem, w: nat, n: nat)
    requires SEMAPHORE_CAN_ACQUIRE in s.bus.event && !s.removed && s.count < 1
    ensures var t := Exec(s, [AcquirePoll(w)] + Releases(n));
            t.count == s.count + n && t.bus.callbacks != [] && SEMAPHORE_CAN_ACQUIRE in t.bus.event
  {
    var ops := [AcquirePoll(w)] + Releases(n);
    if n == 0 {
      assert ops == [AcquirePoll(w)] && ops[..0] == [];
    } else {
      SilentReleases(s, w, n - 1);
      var shorter := [AcquirePoll(w)] + Releases(n - 1);
      assert ops[..|ops| - 1] == shorter && ops[|ops| - 1] == ReleaseOp;
      var t := Exec(s, shorter);
      assert t.bus.event - {} + CAN == t.bus.event;
    }
  }

  lemma {:induction false} WithoutSetNeverLowers(s: Sem, ops: seq<Op>)
    requires WithoutSet(ops)
    ensures !RunLowers(s, ops)
  {
    if ops != [] {
      WithoutSetNeverLowers(s, ops[..|ops| - 1]);
    }
  }

  /** In every state that keeps its shape, a waiter is stranded or can be if and only if the
      state is not safe. */
  lemma CanStrandIff(s: Sem)
    requires Shape(s)
    ensures CanStrand(s) <==> !Safe(s)
  {
    if Safe(s) {
      forall more | WithoutSet(more)
        ensures !LostWakeup(Exec(s, more))
      {
        WithoutSetNeverLowers(s, more);
        SafeIffNeverLowered(s, more);
      }
    } else if LostWakeup(s) {
      assert LostWakeup(Exec(s, [])) && WithoutSet([]);
    } else {
      var ops := [AcquirePoll(0)] + Releases(1 - s.count);
      SilentReleases(s, 0, 1 - s.count);
      assert WithoutSet(ops) && LostWakeup(Exec(s, ops));
    }
  }

  /** After every run, with any number of sets, a waiter can be stranded exactly when one is
      already or the flag is up over a count below one. */
  lemma EveryRunStrandsIff(count: int, ops: seq<Op>)
    ensures var s := Exec(New(count), ops);
            CanStrand(s) <==> LostWakeup(s) || (s.count < 1 && SEMAPHORE_CAN_ACQUIRE in s.bus.event && !s.removed)
  {
    ExecShape(New(count), ops);
    CanStrandIff(Exec(New(count), ops));
  }

  /** After a run that was safe, a `set` makes stranding possible exactly when it lowers the
      count below one with the flag up. */
  lemma SetStrandsIff(count: int, ops: seq<Op>, value: int)
    requires !RunLowers(New(count), ops)
    ensures var s := Exec(New(count), ops);
            CanStrand(Recount(s, value).0)
            <==> value < 1 && SEMAPHORE_CAN_ACQUIRE in s.bus.event && !s.removed
  {
    var s := Exec(New(count), ops);
    SafeIffNeverLowered(New(count), ops);
    ExecShape(New(count), ops);
    ApplyShape(s, SetOp(value));
    RecountSafeIff(s, value);
    CanStrandIff(Recount(s, value).0);
  }
}
