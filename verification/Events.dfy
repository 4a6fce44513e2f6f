/** The event bus: flags, and callbacks called on every change of the flags. */
module Events {
  import opened Common

  datatype Flag =
    | READABLE | WRITABLE | ERROR | CLOSED
    | PROCESS_QUIT | CHILD_PROCESS_QUIT | RECEIVE_SIGNAL
    | SEMAPHORE_REMOVED | SEMAPHORE_CAN_ACQUIRE

  type Event = set<Flag>

  /** A callback wakes its task and asks to be removed: always (the semaphore's), or when
      the new flags meet its mask (`wait_for_event`). */
  datatype Handler = Always(waker: nat) | OnMask(waker: nat, mask: Event) {
    predicate Fires(ev: Event) {
      Always? || ev * mask != {}
    }
  }

  function Kept(cs: seq<Handler>, ev: Event): (r: seq<Handler>)
    ensures forall h :: h in r <==> h in cs && !h.Fires(ev)
  {
    if cs == [] then []
    else
      var r := Kept(cs[..|cs| - 1], ev);
      var h := cs[|cs| - 1];
      assert cs == cs[..|cs| - 1] + [h];
      if h.Fires(ev) then r else r + [h]
  }

  /** The tasks woken, in callback order. */
  function Woken(cs: seq<Handler>, ev: Event): (r: seq<nat>)
    ensures forall h :: h in cs && h.Fires(ev) ==> h.waker in r
    ensures forall w :: w in r ==> exists h :: h in cs && h.Fires(ev) && h.waker == w
  {
    if cs == [] then []
    else
      var r := Woken(cs[..|cs| - 1], ev);
      var h := cs[|cs| - 1];
      assert cs == cs[..|cs| - 1] + [h];
      if h.Fires(ev) then r + [h.waker] else r
  }

  datatype Bus = Bus(event: Event, callbacks: seq<Handler>)

  function ChangeSpec(b: Bus, reset: Event, add: Event): (Bus, seq<nat>) {
    var ev := b.event - reset + add;
    if ev == b.event then (b, []) else (Bus(ev, Kept(b.callbacks, ev)), Woken(b.callbacks, ev))
  }

  class EventBus {
    var event: Event
    var callbacks: seq<Handler>

    ghost function Value(): Bus
      reads this
    {
      Bus(event, callbacks)
    }

    constructor ()
      ensures Value() == Bus({}, [])
    {
      event, callbacks := {}, [];
    }

    method Change(reset: Event, add: Event) returns (woken: seq<nat>)
      modifies this
      ensures (Value(), woken) == ChangeSpec(old(Value()), reset, add)
    {
      woken := [];
      var orig := event;
      event := event - reset + add;
      if event != orig {
        var kept: seq<Handler> := [];
        for i := 0 to |callbacks|
          invariant kept == Kept(callbacks[..i], event) && woken == Woken(callbacks[..i], event)
          invariant callbacks == old(callbacks) && event == old(event) - reset + add
        {
          assert callbacks[..i + 1][..i] == callbacks[..i];
          if callbacks[i].Fires(event) {
            woken := woken + [callbacks[i].waker];
          } else {
            kept := kept + [callbacks[i]];
          }
        }
        assert callbacks[..|callbacks|] == callbacks;
        callbacks := kept;
      }
    }

    method Subscribe(h: Handler)
      modifies this`callbacks
      ensures callbacks == old(callbacks) + [h]
    {
      callbacks := callbacks + [h];
    }

    /** `wait_for_event`: ready with the flags, or subscribed. */
    method PollWait(waker: nat, mask: Event) returns (r: Option<Event>)
      modifies this`callbacks
      ensures (Value(), r) == PollSpec(old(Value()), waker, mask)
    {
      if event * mask != {} {
        return Some(event);
      }
      Subscribe(OnMask(waker, mask));
      return None;
    }
  }

  function PollSpec(b: Bus, waker: nat, mask: Event): (Bus, Option<Event>) {
    if b.event * mask != {} then (b, Some(b.event))
    else (b.(callbacks := b.callbacks + [OnMask(waker, mask)]), None)
  }

  // ---- no waiter is left behind ---------------------------------------------

  datatype Op = ChangeOp(reset: Event, add: Event) | PollOp(waker: nat, mask: Event)

  function Apply(b: Bus, op: Op): Bus {
    match op
    case ChangeOp(reset, add) => ChangeSpec(b, reset, add).0
    case PollOp(waker, mask) => PollSpec(b, waker, mask).0
  }

  function Exec(ops: seq<Op>): Bus {
    if ops == [] then Bus({}, []) else Apply(Exec(ops[..|ops| - 1]), ops[|ops| - 1])
  }

  /** A registered waiter waits for flags that are not up; so the change that raises one
      wakes it. */
  lemma {:induction false} RegisteredWaitersAreDue(ops: seq<Op>, reset: Event, add: Event)
    ensures var b := Exec(ops);
            && (forall h :: h in b.callbacks ==> h.OnMask? && b.event * h.mask == {})
            && var (b', woken) := ChangeSpec(b, reset, add);
               forall h :: h in b.callbacks && b'.event * h.mask != {} ==> h.waker in woken && h !in b'.callbacks
  {
    if ops != [] {
      var last := ops[|ops| - 1];
      RegisteredWaitersAreDue(ops[..|ops| - 1],
                              if last.ChangeOp? then last.reset else {}, if last.ChangeOp? then last.add else {});
    }
  }

  // ---- the task that polled -------------------------------------------------

  /** The tasks a step wakes. */
  function WokenBy(b: Bus, op: Op): seq<nat> {
    match op
    case ChangeOp(reset, add) => ChangeSpec(b, reset, add).1
    case PollOp(_, _) => []
  }

  function ExecFrom(b: Bus, ops: seq<Op>): Bus {
    if ops == [] then b else Apply(ExecFrom(b, ops[..|ops| - 1]), ops[|ops| - 1])
  }

  predicate WokenIn(b: Bus, ops: seq<Op>, w: nat) {
    ops != [] && (WokenIn(b, ops[..|ops| - 1], w) || w in WokenBy(ExecFrom(b, ops[..|ops| - 1]), ops[|ops| - 1]))
  }

  lemma {:induction false} ExecConcat(ops: seq<Op>, later: seq<Op>)
    ensures ExecFrom(Exec(ops), later) == Exec(ops + later)
    decreases |later|
  {
    if later == [] {
      assert ops + later == ops;
    } else {
      var n := |later| - 1;
      ExecConcat(ops, later[..n]);
      assert (ops + later)[..|ops + later| - 1] == ops + later[..n];
    }
  }

  lemma {:induction false} RunWakesOrKeeps(b: Bus, ops: seq<Op>, h: Handler)
    requires h in b.callbacks
    ensures WokenIn(b, ops, h.waker) || h in ExecFrom(b, ops).callbacks
  {
    if ops != [] {
      RunWakesOrKeeps(b, ops[..|ops| - 1], h);
    }
  }

  lemma CommonFlag(a: Event, b: Event)
    ensures a * b != {} <==> exists f :: f in a && f in b
  {
    if f :| f in a && f in b {
      assert f in a * b;
    }
    if a * b != {} {
      var f :| f in a * b;
      assert f in a && f in b;
    }
  }

  /** A poll is ready exactly when its mask is met, with the flags then up. Otherwise, over
      every later run, some step wakes the task that polled, or no flag of its mask is up and
      the change that raises one wakes it. */
  lemma PolledTaskIsWoken(ops: seq<Op>, w: nat, mask: Event, later: seq<Op>, reset: Event, add: Event)
    ensures var b := Exec(ops);
            var (b1, r) := PollSpec(b, w, mask);
            && b1.event == b.event
            && (r.Some? <==> exists f :: f in b.event && f in mask)
            && (r.Some? ==> r.value == b.event && b1 == b)
            && (r.None? ==>
                  || WokenIn(b1, later, w)
                  || var t := ExecFrom(b1, later);
                     && t.event * mask == {}
                     && (ChangeSpec(t, reset, add).0.event * mask != {} ==> w in ChangeSpec(t, reset, add).1))
  {
    var b := Exec(ops);
    CommonFlag(b.event, mask);
    var (b1, r) := PollSpec(b, w, mask);
    if r.None? {
      var polled := ops + [PollOp(w, mask)];
      assert polled[..|ops|] == ops;
      RunWakesOrKeeps(b1, later, OnMask(w, mask));
      ExecConcat(polled, later);
      RegisteredWaitersAreDue(polled + later, reset, add);
    }
  }

  /** Callbacks are kept in the order of their subscription. */
  lemma {:induction false} KeptOrder(a: seq<Handler>, b: seq<Handler>, ev: Event)
    ensures Kept(a + b, ev) == Kept(a, ev) + Kept(b, ev)
    decreases |b|
  {
    if b == [] {
      assert a + b == a;
    } else {
      var n := |b| - 1;
      KeptOrder(a, b[..n], ev);
      assert (a + b)[..|a + b| - 1] == a + b[..n] && (a + b)[|a + b| - 1] == b[n];
    }
  }

  /** They are called in that order too. */
  lemma {:induction false} WokenOrder(a: seq<Handler>, b: seq<Handler>, ev: Event)
    ensures Woken(a + b, ev) == Woken(a, ev) + Woken(b, ev)
    decreases |b|
  {
    if b == [] {
      assert a + b == a;
    } else {
      var n := |b| - 1;
      WokenOrder(a, b[..n], ev);
      assert (a + b)[..|a + b| - 1] == a + b[..n] && (a + b)[|a + b| - 1] == b[n];
    }
  }
}
