/** The hashed timer wheel: no timer fires early, every due timer fires within one turn,
    and timers are conserved: what was added or re-armed has fired, was cancelled or is
    still there. */
module TimerWheel {
  const TIMER_WHEEL_SIZE: nat := 256

  datatype Timer = Timer(deadline: nat, interval: nat, cb: nat, active: bool, rep: bool)

  function NewTimer(deadline: nat, interval: nat, cb: nat): Timer {
    Timer(deadline, interval, cb, true, interval > 0)
  }

  type Slots = s: seq<seq<Timer>> | |s| == TIMER_WHEEL_SIZE witness seq(TIMER_WHEEL_SIZE, i => [])

  datatype Wheel = Wheel(slots: Slots, current: nat)

  function SlotOf(t: Timer): (i: nat)
    ensures i < TIMER_WHEEL_SIZE
  {
    t.deadline % TIMER_WHEEL_SIZE
  }

  // ---- operations on values -------------------------------------------------

  predicate Due(t: Timer, now: nat) {
    t.active && now > t.deadline
  }

  /** The timers of a slot that fire, in order. */
  function Firing(ts: seq<Timer>, now: nat): seq<Timer> {
    if ts == [] then []
    else Firing(ts[..|ts| - 1], now) + (if Due(ts[|ts| - 1], now) then [ts[|ts| - 1]] else [])
  }

  /** Those that stay: active and not yet due. Cancelled timers are dropped. */
  function Staying(ts: seq<Timer>, now: nat): seq<Timer> {
    if ts == [] then []
    else
      var t := ts[|ts| - 1];
      Staying(ts[..|ts| - 1], now) + (if t.active && !Due(t, now) then [t] else [])
  }

  function Reset(t: Timer, now: nat): Timer {
    if t.rep then t.(deadline := now + t.interval) else t
  }

  /** The entry a fired periodic timer leaves behind. */
  function Rearmed(t: Timer, now: nat): Timer {
    NewTimer(now + t.interval, t.interval, t.cb)
  }

  function AddSpec(slots: Slots, t: Timer): Slots {
    slots[SlotOf(t) := slots[SlotOf(t)] + [t]]
  }

  function RearmAll(slots: Slots, fired: seq<Timer>, now: nat): Slots {
    if fired == [] then slots
    else
      var s := RearmAll(slots, fired[..|fired| - 1], now);
      var t := fired[|fired| - 1];
      if t.rep then AddSpec(s, Rearmed(t, now)) else s
  }

  function Next(w: Wheel): (i: nat)
    ensures i < TIMER_WHEEL_SIZE
  {
    (w.current + 1) % TIMER_WHEEL_SIZE
  }

  /** The timers the next advance fires. */
  function FiredBy(w: Wheel, now: nat): seq<Timer> {
    Firing(w.slots[Next(w)], now)
  }

  function AdvanceSpec(w: Wheel, now: nat): Wheel {
    var i := Next(w);
    Wheel(RearmAll(w.slots[i := Staying(w.slots[i], now)], FiredBy(w, now), now), i)
  }

  /** What `advance` returns: fired timers, the periodic ones already reset. */
  function Reported(fired: seq<Timer>, now: nat): (r: seq<Timer>)
    ensures |r| == |fired| && forall i :: 0 <= i < |r| ==> r[i] == Reset(fired[i], now)
  {
    seq(|fired|, i requires 0 <= i < |fired| => Reset(fired[i], now))
  }

  /** Position of the first active timer of `cb`, or the length. */
  function FindCb(ts: seq<Timer>, cb: nat): (i: nat)
    ensures i <= |ts|
    ensures i < |ts| ==> ts[i].cb == cb && ts[i].active
    ensures forall j :: 0 <= j < i ==> !(ts[j].cb == cb && ts[j].active)
  {
    if ts == [] || (ts[0].cb == cb && ts[0].active) then 0 else 1 + FindCb(ts[1..], cb)
  }

  function CancelFrom(slots: Slots, cb: nat, i: nat): (Slots, bool)
    requires i <= TIMER_WHEEL_SIZE
    decreases TIMER_WHEEL_SIZE - i
  {
    if i == TIMER_WHEEL_SIZE then (slots, false)
    else
      var j := FindCb(slots[i], cb);
      if j < |slots[i]| then (slots[i := slots[i][j := slots[i][j].(active := false)]], true)
      else CancelFrom(slots, cb, i + 1)
  }

  // ---- the object -----------------------------------------------------------

  class TimerWheel {
    var slots: Slots
    var current: nat

    ghost function Value(): Wheel
      reads this
    {
      Wheel(slots, current)
    }

    constructor ()
      ensures Value() == Wheel(seq(TIMER_WHEEL_SIZE, i => []), 0)
    {
      slots, current := seq(TIMER_WHEEL_SIZE, i => []), 0;
    }

    method AddTimer(t: Timer)
      modifies this
      ensures Value() == old(Value()).(slots := AddSpec(old(slots), t))
    {
      var slot := t.deadline % TIMER_WHEEL_SIZE;
      slots := slots[slot := slots[slot] + [t]];
    }

    method Advance(now: nat) returns (fired: seq<Timer>)
      modifies this
      ensures Value() == AdvanceSpec(old(Value()), now)
      ensures fired == Reported(FiredBy(old(Value()), now), now)
    {
      current := (current + 1) % TIMER_WHEEL_SIZE;
      var remaining;
      fired, remaining := Drain(slots[current], now);
      slots := slots[current := remaining];
      fired := Rearm(fired, now);
    }

    static method Drain(slot: seq<Timer>, now: nat) returns (fired: seq<Timer>, remaining: seq<Timer>)
      ensures fired == Firing(slot, now) && remaining == Staying(slot, now)
    {
      fired, remaining := [], [];
      for i := 0 to |slot|
        invariant fired == Firing(slot[..i], now) && remaining == Staying(slot[..i], now)
      {
        assert slot[..i + 1][..i] == slot[..i];
        if slot[i].active && now > slot[i].deadline {
          fired := fired + [slot[i]];
        } else if slot[i].active {
          remaining := remaining + [slot[i]];
        }
      }
      assert slot[..|slot|] == slot;
    }

    /** Reset the fired periodic timers and put a copy of each back in the wheel. */
    method Rearm(due: seq<Timer>, now: nat) returns (fired: seq<Timer>)
      modifies this`slots
      ensures slots == RearmAll(old(slots), due, now) && fired == Reported(due, now)
    {
      fired := due;
      for i := 0 to |due|
        invariant |fired| == |due|
        invariant slots == RearmAll(old(slots), due[..i], now)
        invariant forall j :: 0 <= j < i ==> fired[j] == Reset(due[j], now)
        invariant forall j :: i <= j < |due| ==> fired[j] == due[j]
      {
        assert due[..i + 1][..i] == due[..i];
        if fired[i].rep {
          fired := fired[i := fired[i].(deadline := now + fired[i].interval)];
          var newSlot := fired[i].deadline % TIMER_WHEEL_SIZE;
          var clone := NewTimer(fired[i].deadline, fired[i].interval, fired[i].cb);
          slots := slots[newSlot := slots[newSlot] + [clone]];
        }
      }
      assert due[..|due|] == due;
    }

    method Cancel(cb: nat) returns (found: bool)
      modifies this`slots
      ensures (slots, found) == CancelFrom(old(slots), cb, 0)
    {
      for i := 0 to TIMER_WHEEL_SIZE
        invariant slots == old(slots) && CancelFrom(slots, cb, i) == CancelFrom(slots, cb, 0)
      {
        var j := 0;
        while j < |slots[i]|
          invariant 0 <= j <= |slots[i]| && slots == old(slots)
          invariant forall k :: 0 <= k < j ==> !(slots[i][k].cb == cb && slots[i][k].active)
        {
          if slots[i][j].cb == cb && slots[i][j].active {
            FindCbIs(slots[i], cb, j);
            slots := slots[i := slots[i][j := slots[i][j].(active := false)]];
            return true;
          }
          j := j + 1;
        }
        FindCbIs(slots[i], cb, |slots[i]|);
      }
      return false;
    }
  }

  lemma FindCbIs(ts: seq<Timer>, cb: nat, j: nat)
    requires j <= |ts| && (j < |ts| ==> ts[j].cb == cb && ts[j].active)
    requires forall k :: 0 <= k < j ==> !(ts[k].cb == cb && ts[k].active)
    ensures FindCb(ts, cb) == j
  {
    var i := FindCb(ts, cb);
  }

  // ---- runs -----------------------------------------------------------------

  datatype Op = Add(t: Timer) | Advance(now: nat) | Cancel(cb: nat)

  function Apply(w: Wheel, op: Op): Wheel {
    match op
    case Add(t) => w.(slots := AddSpec(w.slots, t))
    case Advance(now) => AdvanceSpec(w, now)
    case Cancel(cb) => w.(slots := CancelFrom(w.slots, cb, 0).0)
  }

  function Exec(w: Wheel, ops: seq<Op>): Wheel
    decreases |ops|
  {
    if ops == [] then w else Exec(Apply(w, ops[0]), ops[1..])
  }

  function Advances(ops: seq<Op>): nat {
    if ops == [] then 0 else (if ops[0].Advance? then 1 else 0) + Advances(ops[1..])
  }

  // ---- what fires and what stays --------------------------------------------

  lemma {:induction false} FiringMembers(ts: seq<Timer>, now: nat)
    ensures forall t :: t in Firing(ts, now) <==> t in ts && Due(t, now)
  {
    if ts != [] {
      FiringMembers(ts[..|ts| - 1], now);
      assert ts == ts[..|ts| - 1] + [ts[|ts| - 1]];
    }
  }

  lemma {:induction false} StayingMembers(ts: seq<Timer>, now: nat)
    ensures forall t :: t in Staying(ts, now) <==> t in ts && t.active && !Due(t, now)
  {
    if ts != [] {
      StayingMembers(ts[..|ts| - 1], now);
      assert ts == ts[..|ts| - 1] + [ts[|ts| - 1]];
    }
  }

  // ---- the pointer ----------------------------------------------------------

  /** Steps until the pointer reaches slot `i`, between 1 and the size. */
  function Distance(current: nat, i: nat): (d: nat)
    requires i < TIMER_WHEEL_SIZE
    ensures 1 <= d <= TIMER_WHEEL_SIZE
  {
    (i + (TIMER_WHEEL_SIZE - 1) - current % TIMER_WHEEL_SIZE) % TIMER_WHEEL_SIZE + 1
  }

  lemma DistanceShrinks(current: nat, i: nat)
    requires i < TIMER_WHEEL_SIZE
    ensures (current + 1) % TIMER_WHEEL_SIZE == i <==> Distance(current, i) == 1
    ensures Distance(current, i) > 1 ==> Distance((current + 1) % TIMER_WHEEL_SIZE, i) == Distance(current, i) - 1
  {
    var c := current % TIMER_WHEEL_SIZE;
    assert (current + 1) % TIMER_WHEEL_SIZE == if c == TIMER_WHEEL_SIZE - 1 then 0 else c + 1;
    assert Distance(current, i) == if i > c then i - c else i + TIMER_WHEEL_SIZE - c;
  }

  // ---- placement ------------------------------------------------------------

  /** Every timer sits in the slot of its deadline. */
  ghost predicate Placed(slots: Slots) {
    forall i, t :: 0 <= i < TIMER_WHEEL_SIZE && t in slots[i] ==> SlotOf(t) == i
  }

  lemma RearmPlaced(slots: Slots, fired: seq<Timer>, now: nat)
    requires Placed(slots)
    ensures Placed(RearmAll(slots, fired, now))
  {
  }

  /** A cancel moves nothing: it only clears the active mark of one entry. */
  lemma {:induction false} CancelOnlyMarks(slots: Slots, cb: nat, k: nat, i: nat, n: nat)
    requires k <= TIMER_WHEEL_SIZE && i < TIMER_WHEEL_SIZE
    ensures |CancelFrom(slots, cb, k).0[i]| == |slots[i]|
    ensures n < |slots[i]| ==>
              var t, u := CancelFrom(slots, cb, k).0[i][n], slots[i][n];
              t.deadline == u.deadline && t.interval == u.interval && t.cb == u.cb && t.rep == u.rep
    decreases TIMER_WHEEL_SIZE - k
  {
    if k < TIMER_WHEEL_SIZE && FindCb(slots[k], cb) == |slots[k]| {
      CancelOnlyMarks(slots, cb, k + 1, i, n);
    }
  }

  lemma CancelPlaced(slots: Slots, cb: nat)
    requires Placed(slots)
    ensures Placed(CancelFrom(slots, cb, 0).0)
  {
    var r := CancelFrom(slots, cb, 0).0;
    forall i, t | 0 <= i < TIMER_WHEEL_SIZE && t in r[i]
      ensures SlotOf(t) == i
    {
      var n :| 0 <= n < |r[i]| && r[i][n] == t;
      CancelOnlyMarks(slots, cb, 0, i, n);
      assert slots[i][n] in slots[i] && SlotOf(slots[i][n]) == i;
    }
  }

  lemma ApplyPlaced(w: Wheel, op: Op)
    requires Placed(w.slots)
    ensures Placed(Apply(w, op).slots)
  {
    match op
    case Add(t) =>
    case Cancel(cb) => CancelPlaced(w.slots, cb);
    case Advance(now) =>
      StayingMembers(w.slots[Next(w)], now);
      RearmPlaced(w.slots[Next(w) := Staying(w.slots[Next(w)], now)], FiredBy(w, now), now);
  }

  const EMPTY: Wheel := Wheel(seq(TIMER_WHEEL_SIZE, i => []), 0)

  lemma {:induction false} ExecPlaced(w: Wheel, ops: seq<Op>)
    requires Placed(w.slots)
    ensures Placed(Exec(w, ops).slots)
    decreases |ops|
  {
    if ops != [] {
      ApplyPlaced(w, ops[0]);
      ExecPlaced(Apply(w, ops[0]), ops[1..]);
    }
  }

  // ---- re-arming ------------------------------------------------------------

  /** The entries the fired timers leave in slot `i`. */
  function RearmedIn(fired: seq<Timer>, now: nat, i: nat): seq<Timer> {
    if fired == [] then []
    else
      var t := fired[|fired| - 1];
      RearmedIn(fired[..|fired| - 1], now, i)
      + (if t.rep && SlotOf(Rearmed(t, now)) == i then [Rearmed(t, now)] else [])
  }

  lemma {:induction false} RearmAllExact(slots: Slots, fired: seq<Timer>, now: nat, i: nat)
    requires i < TIMER_WHEEL_SIZE
    ensures RearmAll(slots, fired, now)[i] == slots[i] + RearmedIn(fired, now, i)
  {
    if fired != [] {
      RearmAllExact(slots, fired[..|fired| - 1], now, i);
    }
  }

  /** One advance, slot by slot: the visited slot keeps its active timers that are not due,
      every slot gains exactly the re-armed periodic timers whose new deadline it holds, and
      nothing else changes. */
  lemma AdvanceExact(w: Wheel, now: nat, i: nat)
    requires i < TIMER_WHEEL_SIZE
    ensures AdvanceSpec(w, now).slots[i]
         == (if i == Next(w) then Staying(w.slots[i], now) else w.slots[i]) + RearmedIn(FiredBy(w, now), now, i)
  {
    RearmAllExact(w.slots[Next(w) := Staying(w.slots[Next(w)], now)], FiredBy(w, now), now, i);
  }

  // ---- counting -------------------------------------------------------------

  /** Occurrences of `t` in the first `n` slots. */
  function CountIn(slots: Slots, n: nat, t: Timer): nat
    requires n <= TIMER_WHEEL_SIZE
  {
    if n == 0 then 0 else CountIn(slots, n - 1, t) + multiset(slots[n - 1])[t]
  }

  function Count(w: Wheel, t: Timer): nat {
    CountIn(w.slots, TIMER_WHEEL_SIZE, t)
  }

  function TimesFired(w: Wheel, ops: seq<Op>, t: Timer): nat
    decreases |ops|
  {
    if ops == [] then 0
    else (if ops[0].Advance? then multiset(FiredBy(w, ops[0].now))[t] else 0)
         + TimesFired(Apply(w, ops[0]), ops[1..], t)
  }

  function TimesAdded(ops: seq<Op>, t: Timer): nat {
    if ops == [] then 0 else (if ops[0] == Add(t) then 1 else 0) + TimesAdded(ops[1..], t)
  }

  /** The timer a cancel marks. */
  function CancelledIn(slots: Slots, cb: nat, i: nat): seq<Timer>
    requires i <= TIMER_WHEEL_SIZE
    decreases TIMER_WHEEL_SIZE - i
  {
    if i == TIMER_WHEEL_SIZE then []
    else
      var j := FindCb(slots[i], cb);
      if j < |slots[i]| then [slots[i][j]] else CancelledIn(slots, cb, i + 1)
  }

  function TimesCancelled(w: Wheel, ops: seq<Op>, t: Timer): nat
    decreases |ops|
  {
    if ops == [] then 0
    else (if ops[0].Cancel? then multiset(CancelledIn(w.slots, ops[0].cb, 0))[t] else 0)
         + TimesCancelled(Apply(w, ops[0]), ops[1..], t)
  }

  /** The fired timers that re-arm as `t`. */
  function RearmedAs(fired: seq<Timer>, now: nat, t: Timer): nat {
    if fired == [] then 0
    else
      var f := fired[|fired| - 1];
      RearmedAs(fired[..|fired| - 1], now, t) + (if f.rep && Rearmed(f, now) == t then 1 else 0)
  }

  function TimesRearmed(w: Wheel, ops: seq<Op>, t: Timer): nat
    decreases |ops|
  {
    if ops == [] then 0
    else (if ops[0].Advance? then RearmedAs(FiredBy(w, ops[0].now), ops[0].now, t) else 0)
         + TimesRearmed(Apply(w, ops[0]), ops[1..], t)
  }

  lemma {:induction false} CountUpdate(slots: Slots, n: nat, i: nat, l: seq<Timer>, t: Timer)
    requires n <= TIMER_WHEEL_SIZE && i < TIMER_WHEEL_SIZE
    ensures i < n ==> CountIn(slots[i := l], n, t) + multiset(slots[i])[t] == CountIn(slots, n, t) + multiset(l)[t]
    ensures i >= n ==> CountIn(slots[i := l], n, t) == CountIn(slots, n, t)
  {
    if n > 0 {
      CountUpdate(slots, n - 1, i, l, t);
    }
  }

  lemma SnocCount(ts: seq<Timer>, u: Timer, t: Timer)
    ensures multiset(ts + [u])[t] == multiset(ts)[t] + (if u == t then 1 else 0)
  {
  }

  lemma {:induction false} FilterCounts(ts: seq<Timer>, now: nat, t: Timer)
    requires t.active
    ensures multiset(ts)[t] == multiset(Firing(ts, now))[t] + multiset(Staying(ts, now))[t]
  {
    if ts != [] {
      var init, u := ts[..|ts| - 1], ts[|ts| - 1];
      FilterCounts(init, now, t);
      assert ts == init + [u];
      SnocCount(init, u, t);
      SnocCount(Firing(init, now), u, t);
      SnocCount(Staying(init, now), u, t);
      assert Firing(ts, now) == if Due(u, now) then Firing(init, now) + [u] else Firing(init, now);
      assert Staying(ts, now) == if u.active && !Due(u, now) then Staying(init, now) + [u] else Staying(init, now);
    }
  }

  lemma {:induction false} RearmCounts(slots: Slots, fired: seq<Timer>, now: nat, t: Timer)
    ensures CountIn(RearmAll(slots, fired, now), TIMER_WHEEL_SIZE, t)
         == CountIn(slots, TIMER_WHEEL_SIZE, t) + RearmedAs(fired, now, t)
  {
    if fired != [] {
      RearmCounts(slots, fired[..|fired| - 1], now, t);
      var s, f := RearmAll(slots, fired[..|fired| - 1], now), fired[|fired| - 1];
      if f.rep {
        var c := Rearmed(f, now);
        CountUpdate(s, TIMER_WHEEL_SIZE, SlotOf(c), s[SlotOf(c)] + [c], t);
        SnocCount(s[SlotOf(c)], c, t);
      }
    }
  }

  lemma MarkCounts(ts: seq<Timer>, j: nat, t: Timer)
    requires j < |ts| && ts[j].active && t.active
    ensures multiset(ts[j := ts[j].(active := false)])[t] + multiset([ts[j]])[t] == multiset(ts)[t]
  {
  }

  lemma {:induction false} CancelCounts(slots: Slots, cb: nat, k: nat, t: Timer)
    requires k <= TIMER_WHEEL_SIZE && t.active
    ensures CountIn(CancelFrom(slots, cb, k).0, TIMER_WHEEL_SIZE, t) + multiset(CancelledIn(slots, cb, k))[t]
         == CountIn(slots, TIMER_WHEEL_SIZE, t)
    decreases TIMER_WHEEL_SIZE - k
  {
    if k < TIMER_WHEEL_SIZE {
      var j := FindCb(slots[k], cb);
      if j < |slots[k]| {
        MarkCounts(slots[k], j, t);
        CountUpdate(slots, TIMER_WHEEL_SIZE, k, slots[k][j := slots[k][j].(active := false)], t);
      } else {
        CancelCounts(slots, cb, k + 1, t);
      }
    }
  }

  lemma AdvanceCounts(w: Wheel, now: nat, t: Timer)
    requires t.active
    ensures Count(AdvanceSpec(w, now), t) + multiset(FiredBy(w, now))[t]
         == Count(w, t) + RearmedAs(FiredBy(w, now), now, t)
  {
    var i := Next(w);
    FilterCounts(w.slots[i], now, t);
    CountUpdate(w.slots, TIMER_WHEEL_SIZE, i, Staying(w.slots[i], now), t);
    RearmCounts(w.slots[i := Staying(w.slots[i], now)], FiredBy(w, now), now, t);
  }

  /** Over any run from any wheel, for every active timer: the copies that fired, were
      cancelled or are still there are the copies that were there, were added or re-armed. */
  lemma {:induction false} TimersConserved(w: Wheel, ops: seq<Op>, t: Timer)
    requires t.active
    ensures TimesFired(w, ops, t) + TimesCancelled(w, ops, t) + Count(Exec(w, ops), t)
         == Count(w, t) + TimesAdded(ops, t) + TimesRearmed(w, ops, t)
    decreases |ops|
  {
    if ops != [] {
      match ops[0] {
        case Add(u) =>
          CountUpdate(w.slots, TIMER_WHEEL_SIZE, SlotOf(u), w.slots[SlotOf(u)] + [u], t);
          SnocCount(w.slots[SlotOf(u)], u, t);
        case Cancel(cb) => CancelCounts(w.slots, cb, 0, t);
        case Advance(now) => AdvanceCounts(w, now, t);
      }
      TimersConserved(Apply(w, ops[0]), ops[1..], t);
    }
  }

  /** An advance fires a timer that repeats with interval 0; the constructor makes none. */
  ghost predicate FiresZero(w: Wheel, ops: seq<Op>)
    decreases |ops|
  {
    ops != [] && ((ops[0].Advance? && exists f :: f in FiredBy(w, ops[0].now) && f.rep && f.interval == 0)
                  || FiresZero(Apply(w, ops[0]), ops[1..]))
  }

  lemma {:induction false} OneShotNotRearmed(fired: seq<Timer>, now: nat, t: Timer)
    requires !t.rep && forall f :: f in fired && f.rep ==> f.interval > 0
    ensures RearmedAs(fired, now, t) == 0
  {
    if fired != [] {
      OneShotNotRearmed(fired[..|fired| - 1], now, t);
    }
  }

  /** A one-shot timer fires no more often than it was there, added, or left behind by a
      timer that repeats with interval 0; without such timers no more often than added. */
  lemma {:induction false} OneShotFiresAtMostOncePerAdd(w: Wheel, ops: seq<Op>, t: Timer)
    requires t.active && !t.rep
    ensures TimesFired(w, ops, t) + Count(Exec(w, ops), t) <= Count(w, t) + TimesAdded(ops, t) + TimesRearmed(w, ops, t)
    ensures !FiresZero(w, ops) ==> TimesRearmed(w, ops, t) == 0
    decreases |ops|
  {
    TimersConserved(w, ops, t);
    if ops != [] {
      OneShotFiresAtMostOncePerAdd(Apply(w, ops[0]), ops[1..], t);
      if !FiresZero(w, ops) && ops[0].Advance? {
        OneShotNotRearmed(FiredBy(w, ops[0].now), ops[0].now, t);
      }
    }
  }

  // ---- every due timer fires within one turn --------------------------------

  lemma {:induction false} PlacedCount(slots: Slots, n: nat, t: Timer)
    requires Placed(slots) && n <= TIMER_WHEEL_SIZE
    ensures CountIn(slots, n, t) == if SlotOf(t) < n then multiset(slots[SlotOf(t)])[t] else 0
  {
    if n > 0 {
      PlacedCount(slots, n - 1, t);
      if n - 1 != SlotOf(t) {
        assert t !in slots[n - 1];
      }
    }
  }

  /** The advance that visits the slot of a due timer fires every copy of it. */
  lemma VisitFiresAll(w: Wheel, now: nat, t: Timer)
    requires Placed(w.slots) && Due(t, now) && Next(w) == SlotOf(t)
    ensures multiset(FiredBy(w, now))[t] == Count(w, t)
  {
    var ts := w.slots[SlotOf(t)];
    PlacedCount(w.slots, TIMER_WHEEL_SIZE, t);
    FilterCounts(ts, now, t);
    StayingMembers(ts, now);
    assert t !in Staying(ts, now);
  }

  /** However timers are added and cancelled meanwhile, within one turn of advances made after
      the clock has passed its deadline, every copy of a timer fires or is itself cancelled. */
  lemma {:induction false} DueTimerFires(w: Wheel, ops: seq<Op>, t: Timer)
    requires Placed(w.slots) && t.active
    requires forall k :: 0 <= k < |ops| && ops[k].Advance? ==> ops[k].now > t.deadline
    requires Advances(ops) >= Distance(w.current, SlotOf(t))
    ensures TimesFired(w, ops, t) + TimesCancelled(w, ops, t) >= Count(w, t)
    decreases |ops|
  {
    var w' := Apply(w, ops[0]);
    ApplyPlaced(w, ops[0]);
    match ops[0]
    case Add(u) =>
      CountUpdate(w.slots, TIMER_WHEEL_SIZE, SlotOf(u), w.slots[SlotOf(u)] + [u], t);
      SnocCount(w.slots[SlotOf(u)], u, t);
      DueTimerFires(w', ops[1..], t);
    case Cancel(cb) =>
      CancelCounts(w.slots, cb, 0, t);
      DueTimerFires(w', ops[1..], t);
    case Advance(now) =>
      DistanceShrinks(w.current, SlotOf(t));
      if Next(w) == SlotOf(t) {
        VisitFiresAll(w, now, t);
      } else {
        AdvanceCounts(w, now, t);
        DueTimerFires(w', ops[1..], t);
      }
  }

  lemma {:induction false} PresentCounts(slots: Slots, n: nat, i: nat, t: Timer)
    requires i < n <= TIMER_WHEEL_SIZE && t in slots[i]
    ensures CountIn(slots, n, t) >= 1
  {
    if i < n - 1 {
      PresentCounts(slots, n - 1, i, t);
    }
  }

  /** In every reachable wheel and over any continuation: whatever an advance fires is strictly
      past its deadline; every copy of an active timer fires or is itself cancelled within one
      turn past its deadline; and so a timer that is there and that no cancel picks fires. */
  lemma FiresOnTime(ops: seq<Op>, t: Timer, now: nat, more: seq<Op>)
    requires t.active
    requires forall k :: 0 <= k < |more| && more[k].Advance? ==> more[k].now > t.deadline
    ensures var w := Exec(EMPTY, ops);
            && (forall f :: f in FiredBy(w, now) ==> now > f.deadline && f.active)
            && (Advances(more) >= TIMER_WHEEL_SIZE ==>
                  && TimesFired(w, more, t) + TimesCancelled(w, more, t) >= Count(w, t)
                  && (Present(w, t) && TimesCancelled(w, more, t) == 0 ==> TimesFired(w, more, t) >= 1))
  {
    var w := Exec(EMPTY, ops);
    ExecPlaced(EMPTY, ops);
    FiringMembers(w.slots[Next(w)], now);
    if Advances(more) >= TIMER_WHEEL_SIZE {
      DueTimerFires(w, more, t);
      if i :| 0 <= i < TIMER_WHEEL_SIZE && t in w.slots[i] {
        PresentCounts(w.slots, TIMER_WHEEL_SIZE, i, t);
      }
    }
  }

  ghost predicate Present(w: Wheel, t: Timer) {
    exists i :: 0 <= i < TIMER_WHEEL_SIZE && t in w.slots[i]
  }

  // ---- what an advance and a cancel leave behind ----------------------------

  lemma {:induction false} RearmHolds(slots: Slots, fired: seq<Timer>, now: nat, k: nat)
    requires k < |fired| && fired[k].rep
    ensures Rearmed(fired[k], now) in RearmAll(slots, fired, now)[SlotOf(Rearmed(fired[k], now))]
  {
    var n := |fired| - 1;
    if k < n {
      RearmHolds(slots, fired[..n], now, k);
    }
  }

  /** A periodic timer that fires at clock `now` is back in the wheel with deadline `now` plus its
      interval, the same interval and callback, active, and in the slot of that deadline; and it
      is reported with that deadline. A one-shot timer is reported as it was. */
  lemma PeriodicTimerReturns(w: Wheel, now: nat, k: nat)
    requires k < |FiredBy(w, now)|
    ensures var f, r := FiredBy(w, now)[k], Reported(FiredBy(w, now), now)[k];
            && r.cb == f.cb && r.interval == f.interval && r.rep == f.rep && r.active == f.active
            && r.deadline == (if f.rep then now + f.interval else f.deadline)
            && (f.rep ==>
                  exists e :: && e in AdvanceSpec(w, now).slots[(now + f.interval) % TIMER_WHEEL_SIZE]
                              && e.deadline == now + f.interval && e.interval == f.interval
                              && e.cb == f.cb && e.active && (e.rep <==> f.interval > 0))
  {
    var f := FiredBy(w, now)[k];
    if f.rep {
      var i := Next(w);
      RearmHolds(w.slots[i := Staying(w.slots[i], now)], FiredBy(w, now), now, k);
      assert Rearmed(f, now) in AdvanceSpec(w, now).slots[(now + f.interval) % TIMER_WHEEL_SIZE];
    }
  }

  /** Some active timer has the callback. */
  ghost predicate Registered(slots: Slots, cb: nat) {
    exists i, t :: 0 <= i < TIMER_WHEEL_SIZE && t in slots[i] && t.cb == cb && t.active
  }

  lemma {:induction false} CancelFromIff(slots: Slots, cb: nat, k: nat)
    requires k <= TIMER_WHEEL_SIZE
    requires forall i, t :: 0 <= i < k && t in slots[i] ==> !(t.cb == cb && t.active)
    ensures CancelFrom(slots, cb, k).1 <==> Registered(slots, cb)
    ensures !CancelFrom(slots, cb, k).1 ==> CancelFrom(slots, cb, k).0 == slots && CancelledIn(slots, cb, k) == []
    ensures CancelFrom(slots, cb, k).1 ==>
              var gone := CancelledIn(slots, cb, k); |gone| == 1 && gone[0].cb == cb && gone[0].active
    decreases TIMER_WHEEL_SIZE - k
  {
    if k < TIMER_WHEEL_SIZE {
      var j := FindCb(slots[k], cb);
      if j < |slots[k]| {
        assert slots[k][j] in slots[k];
      } else {
        CancelFromIff(slots, cb, k + 1);
      }
    }
  }

  /** `cancel` reports true exactly when some active timer has the callback. It then marks one
      such timer and no other, and otherwise changes nothing. */
  lemma CancelExact(slots: Slots, cb: nat)
    ensures var (slots', found) := CancelFrom(slots, cb, 0);
            && (found <==> Registered(slots, cb))
            && (!found ==> slots' == slots)
            && (found ==> |CancelledIn(slots, cb, 0)| == 1
                          && CancelledIn(slots, cb, 0)[0].cb == cb && CancelledIn(slots, cb, 0)[0].active)
            && forall t: Timer :: t.active ==>
                 CountIn(slots', TIMER_WHEEL_SIZE, t) + multiset(CancelledIn(slots, cb, 0))[t]
                 == CountIn(slots, TIMER_WHEEL_SIZE, t)
  {
    CancelFromIff(slots, cb, 0);
    forall t: Timer | t.active
      ensures CountIn(CancelFrom(slots, cb, 0).0, TIMER_WHEEL_SIZE, t) + multiset(CancelledIn(slots, cb, 0))[t]
           == CountIn(slots, TIMER_WHEEL_SIZE, t)
    {
      CancelCounts(slots, cb, 0, t);
    }
  }

  /** Timers fire, and stay, in the order of their slot. */
  lemma {:induction false} SlotOrder(a: seq<Timer>, b: seq<Timer>, now: nat)
    ensures Firing(a + b, now) == Firing(a, now) + Firing(b, now)
    ensures Staying(a + b, now) == Staying(a, now) + Staying(b, now)
    decreases |b|
  {
    if b == [] {
      assert a + b == a;
    } else {
      var n := |b| - 1;
      SlotOrder(a, b[..n], now);
      assert (a + b)[..|a + b| - 1] == a + b[..n] && (a + b)[|a + b| - 1] == b[n];
    }
  }
}
