/** The calls on the kernel lock: what each returns with in every interleaving, when a nested
    one returns at all, and which nestings are reached. */
module KernCalls {
  import opened KernLock

  // ---- what a call returns with ---------------------------------------------

  /** Thread `t` starts no call in the run. */
  predicate NoCall(ls: seq<Label>, t: nat) {
    forall i :: 0 <= i < |ls| && ls[i].Begin? ==> ls[i].t != t
  }

  /** Thread `t` is about to try the flag once, and the flag is up. */
  predicate LosesFlag(s: State, l: Label, t: nat) {
    l == Go(t) && t in s.threads && s.threads[t].pc.TryFlag? && s.threads[t].pc.once && s.lock.flag
  }

  /** Some step of the run is `t` trying the flag once while it is up. */
  predicate FlagLost(s: State, ls: seq<Label>, t: nat)
    decreases |ls|
  {
    ls != [] && Enabled(s, ls[0]) && (LosesFlag(s, ls[0], t) || FlagLost(Step(s, ls[0]), ls[1..], t))
  }

  predicate EnteringAt(pc: Pc, id: nat, once: bool) {
    match pc
    case LoadOwner(i, o) => i == id && o == once
    case LoadDepth(i, o, _) => i == id && o == once
    case TryFlag(i, o) => i == id && o == once
    case PushId(i, _) => i == id
    case BumpDepth(i) => i == id
    case ClearSlot(i, _) => i == id
    case StoreId(i) => i == id
    case StoreDepth(i) => i == id
    case StoreOwner(i) => i == id
    case Panicked => true
    case _ => false
  }

  predicate LeavingAt(pc: Pc) {
    pc.LeaveLoadDepth? || pc.PopSlot? || pc.PopDepth? || Releasing(pc)
  }

  /** Inside call `c`, made with the enters `open`, or back from it; `lost` says whether a
      `try_enter` met the flag up. */
  predicate InCall(th: Thread, open: seq<nat>, c: Call, lost: bool) {
    match c
    case Enter(id) => (th.open == open && EnteringAt(th.pc, id, false)) || th == Thread(Idle, open + [id])
    case TryEnter(id) =>
      if lost then th == Thread(Idle, open)
      else (th.open == open && EnteringAt(th.pc, id, true)) || th == Thread(Idle, open + [id])
    case Leave => open != [] && ((th.open == open && LeavingAt(th.pc)) || th == Thread(Idle, open[..|open| - 1]))
  }

  lemma CallMove(k: Shared, t: nat, th: Thread, open: seq<nat>, c: Call)
    requires LocalInv(th) && Running(th) && InCall(th, open, c, false)
    ensures InCall(Move(k, t, th).1, open, c, c.TryEnter? && th.pc.TryFlag? && th.pc.once && k.flag)
  {
    if th.pc.DropFlag? {
      assert open[..|open| - 1] == [];
    }
    if th.pc.StoreOwner? {
      assert open + [th.pc.id] == [th.pc.id];
    }
  }

  lemma CallStep(s: State, l: Label, t: nat, open: seq<nat>, c: Call, lost: bool)
    requires Inv(s) && Enabled(s, l) && (l.Begin? ==> l.t != t) && (lost ==> c.TryEnter?)
    requires t in s.threads && InCall(s.threads[t], open, c, lost)
    ensures Inv(Step(s, l)) && t in Step(s, l).threads
    ensures InCall(Step(s, l).threads[t], open, c, lost || (c.TryEnter? && LosesFlag(s, l, t)))
  {
    match l
    case Begin(u, d) => BeginInv(s, u, d);
    case Go(u) =>
      GoInv(s, u);
      if u == t {
        CallMove(s.lock, t, s.threads[t], open, c);
      }
  }

  lemma {:induction false} CallRun(s: State, ls: seq<Label>, s': State, t: nat, open: seq<nat>, c: Call, lost: bool)
    requires Inv(s) && Run(s, ls, s') && NoCall(ls, t) && (lost ==> c.TryEnter?)
    requires t in s.threads && InCall(s.threads[t], open, c, lost)
    ensures Inv(s') && t in s'.threads
    ensures InCall(s'.threads[t], open, c, lost || (c.TryEnter? && FlagLost(s, ls, t)))
    decreases |ls|
  {
    if ls != [] {
      CallStep(s, ls[0], t, open, c, lost);
      CallRun(Step(s, ls[0]), ls[1..], s', t, open, c, lost || (c.TryEnter? && LosesFlag(s, ls[0], t)));
    }
  }

  /** In every interleaving, for every thread, holder or not: when `enter(id)` returns, `id` is
      open on top of the enters before, and the lock is the caller's; `try_enter(id)` returns
      likewise unless it met the flag up, and then with its enters unchanged; `leave` returns
      with the last enter gone. */
  lemma CallsReturnWith(s0: State, before: seq<Label>, s: State, t: nat, c: Call, ls: seq<Label>, s': State)
    requires Init(s0) && Run(s0, before, s) && Enabled(s, Begin(t, c))
    requires Run(Step(s, Begin(t, c)), ls, s') && NoCall(ls, t)
    requires t in s'.threads && s'.threads[t].pc == Idle
    ensures var open, now := s.threads[t].open, s'.threads[t].open;
            match c
            case Enter(id) => now == open + [id] && Listed(s'.lock, t, now) && s'.lock.flag
            case TryEnter(id) =>
              if FlagLost(Step(s, Begin(t, c)), ls, t) then now == open
              else now == open + [id] && Listed(s'.lock, t, now) && s'.lock.flag
            case Leave => open != [] && now == open[..|open| - 1]
  {
    InitInv(s0);
    RunInv(s0, before, s);
    BeginInv(s, t, c);
    CallRun(Step(s, Begin(t, c)), ls, s', t, s.threads[t].open, c, false);
    if s'.threads[t].open != [] {
      HolderListed(s'.lock, t, s'.threads[t]);
    }
  }

  // ---- nested enters --------------------------------------------------------

  /** Some run from `s` brings thread `t` back to `Idle` with the enters `open`. */
  ghost predicate CanReturn(s: State, t: nat, open: seq<nat>) {
    exists ls, s' :: Run(s, ls, s') && t in s'.threads && s'.threads[t] == Thread(Idle, open)
  }

  /** In every reachable state, a nested `enter(id)` by the holder can return if and only if
      the id is not zero and the stack has room. A zero id skips the re-entrance check and
      waits for itself; a full stack panics. */
  lemma NestedEnterReturnsIff(s0: State, ls: seq<Label>, s: State, t: nat, id: nat)
    requires Init(s0) && Run(s0, ls, s)
    requires t in s.threads && s.threads[t].pc == Idle && s.threads[t].open != []
    ensures CanReturn(Step(s, Begin(t, Enter(id))), t, s.threads[t].open + [id])
            <==> id != 0 && |s.threads[t].open| < CAP
  {
    InitInv(s0);
    RunInv(s0, ls, s);
    BeginInv(s, t, Enter(id));
    var open, s1 := s.threads[t].open, Step(s, Begin(t, Enter(id)));
    if id != 0 && |open| < CAP {
      var s' := NestedEnter(s1, t, id, false);
    } else if CanReturn(s1, t, open + [id]) {
      var ls', s' :| Run(s1, ls', s') && t in s'.threads && s'.threads[t] == Thread(Idle, open + [id]);
      StuckRun(s1, ls', s', t, open, id);
    }
  }

  /** Two enabled steps of one thread are a run. */
  lemma TwoSteps(s: State, t: nat)
    requires Enabled(s, Go(t)) && Enabled(Step(s, Go(t)), Go(t))
    ensures Run(s, [Go(t), Go(t)], Step(Step(s, Go(t)), Go(t)))
  {
    var s1 := Step(s, Go(t));
    assert [Go(t), Go(t)][1..] == [Go(t)] && [Go(t)][1..] == [];
    assert Run(s1, [Go(t)], Step(s1, Go(t)));
  }

  /** The holder finds itself the owner and room on the stack. */
  lemma LookIn(s: State, t: nat, id: nat, once: bool) returns (s': State)
    requires Inv(s) && t in s.threads && s.threads[t].pc == LoadOwner(id, once)
    requires s.threads[t].open != [] && id != 0 && |s.threads[t].open| < CAP
    ensures Run(s, [Go(t), Go(t)], s') && Inv(s')
    ensures t in s'.threads && s'.threads[t] == Thread(PushId(id, |s.threads[t].open|), s.threads[t].open)
  {
    GoInv(s, t);
    var s1 := Step(s, Go(t));
    GoInv(s1, t);
    TwoSteps(s, t);
    s' := Step(s1, Go(t));
  }

  lemma PushIn(s: State, t: nat) returns (s': State)
    requires t in s.threads && s.threads[t].pc.PushId?
    ensures Run(s, [Go(t), Go(t)], s')
    ensures t in s'.threads && s'.threads[t] == Thread(Idle, s.threads[t].open + [s.threads[t].pc.id])
  {
    TwoSteps(s, t);
    s' := Step(Step(s, Go(t)), Go(t));
  }

  /** Four steps of its own take the holder through a nested enter. */
  lemma NestedEnter(s: State, t: nat, id: nat, once: bool) returns (s': State)
    requires Inv(s) && t in s.threads && s.threads[t].pc == LoadOwner(id, once)
    requires s.threads[t].open != [] && id != 0 && |s.threads[t].open| < CAP
    ensures Run(s, [Go(t), Go(t), Go(t), Go(t)], s')
    ensures t in s'.threads && s'.threads[t] == Thread(Idle, s.threads[t].open + [id])
  {
    var mid := LookIn(s, t, id, once);
    s' := PushIn(mid, t);
    RunConcat(s, [Go(t), Go(t)], mid, [Go(t), Go(t)], s');
    assert [Go(t), Go(t)] + [Go(t), Go(t)] == [Go(t), Go(t), Go(t), Go(t)];
  }

  /** The positions of a nested enter that will not return. */
  predicate Stuck(th: Thread, open: seq<nat>, id: nat) {
    && th.open == open
    && (|| th.pc == LoadOwner(id, false)
        || th.pc == LoadDepth(id, false, true)
        || (id == 0 && th.pc == TryFlag(0, false))
        || (id != 0 && th.pc == Panicked))
  }

  lemma StuckStep(s: State, l: Label, t: nat, open: seq<nat>, id: nat)
    requires Inv(s) && Enabled(s, l) && t in s.threads && Stuck(s.threads[t], open, id)
    requires open != [] && (id == 0 || |open| >= CAP)
    ensures Inv(Step(s, l)) && t in Step(s, l).threads && Stuck(Step(s, l).threads[t], open, id)
  {
    match l
    case Begin(u, c) => BeginInv(s, u, c);
    case Go(u) => GoInv(s, u);
  }

  lemma {:induction false} StuckRun(s: State, ls: seq<Label>, s': State, t: nat, open: seq<nat>, id: nat)
    requires Inv(s) && Run(s, ls, s') && t in s.threads && Stuck(s.threads[t], open, id)
    requires open != [] && (id == 0 || |open| >= CAP)
    ensures t in s'.threads && Stuck(s'.threads[t], open, id)
    decreases |ls|
  {
    if ls != [] {
      StuckStep(s, ls[0], t, open, id);
      StuckRun(Step(s, ls[0]), ls[1..], s', t, open, id);
    }
  }

  // ---- nested try_enter -----------------------------------------------------

  /** Some run in which thread `t` starts no further call brings it to `Idle` with the
      enters `open`. */
  ghost predicate Returns(s: State, t: nat, open: seq<nat>) {
    exists ls, s' :: Run(s, ls, s') && NoCall(ls, t) && t in s'.threads && s'.threads[t] == Thread(Idle, open)
  }

  /** In every reachable state, `try_enter(id)` by the holder re-enters if and only if the id is
      not zero and the stack has room; with id zero it returns at once, its enters unchanged,
      and in no other way. */
  lemma NestedTryEnterReturnsIff(s0: State, ls: seq<Label>, s: State, t: nat, id: nat)
    requires Init(s0) && Run(s0, ls, s)
    requires t in s.threads && s.threads[t].pc == Idle && s.threads[t].open != []
    ensures var s1, open := Step(s, Begin(t, TryEnter(id))), s.threads[t].open;
            && (Returns(s1, t, open + [id]) <==> id != 0 && |open| < CAP)
            && (Returns(s1, t, open) <==> id == 0)
  {
    InitInv(s0);
    RunInv(s0, ls, s);
    BeginInv(s, t, TryEnter(id));
    TryReturnsIff(Step(s, Begin(t, TryEnter(id))), t, s.threads[t].open, id);
  }

  lemma TryReturnsIff(s: State, t: nat, open: seq<nat>, id: nat)
    requires Inv(s) && t in s.threads && s.threads[t] == Thread(LoadOwner(id, true), open) && open != []
    ensures Returns(s, t, open + [id]) <==> id != 0 && |open| < CAP
    ensures Returns(s, t, open) <==> id == 0
  {
    assert |open + [id]| == |open| + 1;
    if Returns(s, t, open + [id]) {
      TryOutcome(s, t, open, id, open + [id]);
    }
    if Returns(s, t, open) {
      TryOutcome(s, t, open, id, open);
    }
    if id == 0 {
      TryZero(s, t);
    } else if |open| < CAP {
      var s' := NestedEnter(s, t, id, true);
      assert NoCall([Go(t), Go(t), Go(t), Go(t)], t);
    }
  }

  /** How a holder's `try_enter` can return. */
  lemma TryOutcome(s: State, t: nat, open: seq<nat>, id: nat, after: seq<nat>)
    requires Inv(s) && t in s.threads && s.threads[t] == Thread(LoadOwner(id, true), open) && open != []
    requires Returns(s, t, after)
    ensures if id == 0 then after == open else |open| < CAP && after == open + [id]
  {
    var ls, s' :| Run(s, ls, s') && NoCall(ls, t) && t in s'.threads && s'.threads[t] == Thread(Idle, after);
    TryingRun(s, ls, s', t, open, id);
  }

  /** Two steps of its own return a holder's `try_enter(0)`. */
  lemma TryZero(s: State, t: nat)
    requires Inv(s) && t in s.threads && s.threads[t].pc == LoadOwner(0, true) && s.threads[t].open != []
    ensures Returns(s, t, s.threads[t].open)
  {
    GoInv(s, t);
    TwoSteps(s, t);
    assert NoCall([Go(t), Go(t)], t);
  }

  /** The positions of a holder's `try_enter`, and how it returns. */
  predicate Trying(th: Thread, open: seq<nat>, id: nat) {
    || (th.open == open && TryingAt(th.pc, open, id))
    || (id != 0 && |open| < CAP && th == Thread(Idle, open + [id]))
  }

  predicate TryingAt(pc: Pc, open: seq<nat>, id: nat) {
    || pc == LoadOwner(id, true)
    || (id == 0 && (pc == TryFlag(0, true) || pc == Idle))
    || (id != 0 && (pc == LoadDepth(id, true, true) || pc == Panicked))
    || (id != 0 && |open| < CAP && (pc == PushId(id, |open|) || pc == BumpDepth(id)))
  }

  lemma TryingStep(s: State, l: Label, t: nat, open: seq<nat>, id: nat)
    requires Inv(s) && Enabled(s, l) && t in s.threads && Trying(s.threads[t], open, id)
    requires open != [] && (l.Begin? ==> l.t != t)
    ensures Inv(Step(s, l)) && t in Step(s, l).threads && Trying(Step(s, l).threads[t], open, id)
  {
    match l
    case Begin(u, c) => BeginInv(s, u, c);
    case Go(u) =>
      GoInv(s, u);
      if u == t {
        TryingMove(s.lock, t, s.threads[t], open, id);
      }
  }

  lemma TryingMove(k: Shared, t: nat, th: Thread, open: seq<nat>, id: nat)
    requires LocalInv(th) && k.flag && HolderInv(k, t, th) && Running(th)
    requires open != [] && Trying(th, open, id)
    ensures Trying(Move(k, t, th).1, open, id)
  {
  }

  lemma {:induction false} TryingRun(s: State, ls: seq<Label>, s': State, t: nat, open: seq<nat>, id: nat)
    requires Inv(s) && Run(s, ls, s') && NoCall(ls, t) && t in s.threads && Trying(s.threads[t], open, id)
    requires open != []
    ensures t in s'.threads && Trying(s'.threads[t], open, id)
    decreases |ls|
  {
    if ls != [] {
      TryingStep(s, ls[0], t, open, id);
      TryingRun(Step(s, ls[0]), ls[1..], s', t, open, id);
    }
  }

  /** No thread panics except the holder of a full stack, in any run. */
  lemma PanicsOnlyWhenFull(s0: State, ls: seq<Label>, s: State, t: nat)
    requires Init(s0) && Run(s0, ls, s) && t in s.threads && s.threads[t].pc == Panicked
    ensures |s.threads[t].open| == CAP && Listed(s.lock, t, s.threads[t].open)
  {
    InitInv(s0);
    RunInv(s0, ls, s);
    HolderListed(s.lock, t, s.threads[t]);
  }

  // ---- every depth is reached -----------------------------------------------

  lemma {:induction false} RunConcat(a: State, ls: seq<Label>, b: State, ls': seq<Label>, c: State)
    requires Run(a, ls, b) && Run(b, ls', c)
    ensures Run(a, ls + ls', c)
    decreases |ls|
  {
    if ls == [] {
      assert ls + ls' == ls';
    } else {
      assert (ls + ls')[1..] == ls[1..] + ls';
      RunConcat(Step(a, ls[0]), ls[1..], b, ls', c);
    }
  }

  lemma RunSnoc(a: State, ls: seq<Label>, b: State, l: Label)
    requires Run(a, ls, b) && Enabled(b, l)
    ensures Run(a, ls + [l], Step(b, l))
  {
    assert [l][1..] == [];
    RunConcat(a, ls, b, [l], Step(b, l));
  }

  /** The steps of an acquiring thread from clearing slot `i` on. */
  lemma {:induction false} ClearAll(s0: State, ls: seq<Label>, s: State, t: nat, id: nat, i: nat)
    returns (ls': seq<Label>, s': State)
    requires Run(s0, ls, s) && i < CAP && t in s.threads && s.threads[t].pc == ClearSlot(id, i)
    ensures Run(s0, ls', s') && t in s'.threads && s'.threads[t].pc == StoreId(id)
    decreases CAP - i
  {
    RunSnoc(s0, ls, s, Go(t));
    if i + 1 < CAP {
      ls', s' := ClearAll(s0, ls + [Go(t)], Step(s, Go(t)), t, id, i + 1);
    } else {
      ls', s' := ls + [Go(t)], Step(s, Go(t));
    }
  }

  /** Whenever the lock is free, any thread between calls can enter. */
  lemma FirstEnter(s0: State, t: nat, id: nat) returns (ls: seq<Label>, s: State)
    requires Inv(s0) && !s0.lock.flag && t in s0.threads && s0.threads[t].pc == Idle
    ensures Run(s0, ls, s) && t in s.threads && s.threads[t] == Thread(Idle, [id])
  {
    var s1 := Step(s0, Begin(t, Enter(id)));
    var s2 := Step(s1, Go(t));
    var s3 := Step(s2, Go(t));
    var s4 := Step(s3, Go(t));
    assert Run(s0, [], s0);
    RunSnoc(s0, [], s0, Begin(t, Enter(id)));
    ls := [] + [Begin(t, Enter(id))];
    RunSnoc(s0, ls, s1, Go(t));
    RunSnoc(s0, ls + [Go(t)], s2, Go(t));
    RunSnoc(s0, ls + [Go(t)] + [Go(t)], s3, Go(t));
    ls, s := ClearAll(s0, ls + [Go(t)] + [Go(t)] + [Go(t)], s4, t, id, 0);
    ls, s := Publish(s0, ls, s, t, id);
  }

  lemma Publish(s0: State, ls: seq<Label>, s: State, t: nat, id: nat) returns (ls': seq<Label>, s': State)
    requires Run(s0, ls, s) && t in s.threads && s.threads[t].pc == StoreId(id)
    ensures Run(s0, ls', s') && t in s'.threads && s'.threads[t] == Thread(Idle, [id])
  {
    var s1 := Step(s, Go(t));
    var s2 := Step(s1, Go(t));
    RunSnoc(s0, ls, s, Go(t));
    RunSnoc(s0, ls + [Go(t)], s1, Go(t));
    RunSnoc(s0, ls + [Go(t)] + [Go(t)], s2, Go(t));
    ls', s' := ls + [Go(t)] + [Go(t)] + [Go(t)], Step(s2, Go(t));
  }

  /** The steps of a releasing thread from wiping slot `i` on. */
  lemma {:induction false} WipeAll(s0: State, ls: seq<Label>, s: State, t: nat, i: nat)
    returns (ls': seq<Label>, s': State)
    requires Run(s0, ls, s) && NoCall(ls, t) && i < CAP && t in s.threads && s.threads[t].pc == WipeSlot(i)
    ensures Run(s0, ls', s') && NoCall(ls', t)
    ensures t in s'.threads && s'.threads[t] == Thread(WipeDepth, s.threads[t].open)
    decreases CAP - i
  {
    RunSnoc(s0, ls, s, Go(t));
    if i + 1 < CAP {
      ls', s' := WipeAll(s0, ls + [Go(t)], Step(s, Go(t)), t, i + 1);
    } else {
      ls', s' := ls + [Go(t)], Step(s, Go(t));
    }
  }

  /** Three more steps of thread `t`. */
  lemma ThreeSteps(s0: State, ls: seq<Label>, s: State, t: nat) returns (ls': seq<Label>, s': State)
    requires Run(s0, ls, s) && NoCall(ls, t) && Enabled(s, Go(t)) && Enabled(Step(s, Go(t)), Go(t))
    requires Enabled(Step(Step(s, Go(t)), Go(t)), Go(t))
    ensures Run(s0, ls', s') && NoCall(ls', t) && s' == Step(Step(Step(s, Go(t)), Go(t)), Go(t))
  {
    var s1 := Step(s, Go(t));
    var s2 := Step(s1, Go(t));
    RunSnoc(s0, ls, s, Go(t));
    RunSnoc(s0, ls + [Go(t)], s1, Go(t));
    RunSnoc(s0, ls + [Go(t)] + [Go(t)], s2, Go(t));
    ls', s' := ls + [Go(t)] + [Go(t)] + [Go(t)], Step(s2, Go(t));
  }

  /** A nested leave: load the depth, clear the slot, lower the depth. */
  lemma PopReturns(s: State, t: nat) returns (ls: seq<Label>, s': State)
    requires t in s.threads && s.threads[t].pc == LeaveLoadDepth && s.lock.depth > 1 && s.threads[t].open != []
    ensures Run(s, ls, s') && NoCall(ls, t) && t in s'.threads
    ensures s'.threads[t] == Thread(Idle, s.threads[t].open[..|s.threads[t].open| - 1])
  {
    ls, s' := ThreeSteps(s, [], s, t);
  }

  lemma WipeReturns(s0: State, ls: seq<Label>, s: State, t: nat) returns (ls': seq<Label>, s': State)
    requires Run(s0, ls, s) && NoCall(ls, t) && t in s.threads && s.threads[t].pc == WipeDepth
    ensures Run(s0, ls', s') && NoCall(ls', t) && t in s'.threads && s'.threads[t] == Thread(Idle, [])
  {
    ls', s' := ThreeSteps(s0, ls, s, t);
  }

  /** The outermost leave: load the depth, wipe the stack, the depth and the owner, drop the
      flag. */
  lemma DropReturns(s: State, t: nat) returns (ls: seq<Label>, s': State)
    requires t in s.threads && s.threads[t].pc == LeaveLoadDepth && s.lock.depth <= 1
    ensures Run(s, ls, s') && NoCall(ls, t) && t in s'.threads && s'.threads[t] == Thread(Idle, [])
  {
    assert Run(s, [], s);
    RunSnoc(s, [], s, Go(t));
    var wiping := Step(s, Go(t));
    assert NoCall([] + [Go(t)], t);
    ls, s' := WipeAll(s, [] + [Go(t)], wiping, t, 0);
    ls, s' := WipeReturns(s, ls, s', t);
  }

  /** A `leave` never blocks: in every reachable state the steps of its caller alone bring it
      back, with the last enter gone. */
  lemma LeaveReturns(s0: State, before: seq<Label>, s: State, t: nat) returns (ls: seq<Label>, s': State)
    requires Init(s0) && Run(s0, before, s) && Enabled(s, Begin(t, Leave))
    ensures Run(Step(s, Begin(t, Leave)), ls, s') && NoCall(ls, t) && t in s'.threads
    ensures s'.threads[t] == Thread(Idle, s.threads[t].open[..|s.threads[t].open| - 1])
  {
    InitInv(s0);
    RunInv(s0, before, s);
    HolderListed(s.lock, t, s.threads[t]);
    var s1 := Step(s, Begin(t, Leave));
    if s.lock.depth > 1 {
      ls, s' := PopReturns(s1, t);
    } else {
      ls, s' := DropReturns(s1, t);
      assert s.threads[t].open[..|s.threads[t].open| - 1] == [];
    }
  }

  /** Any ids, the nested ones not zero, can be open at once up to the stack's capacity: so
      both conditions of `NestedEnterReturnsIff` fail in reachable states. */
  lemma {:induction false} EveryNestingReached(s0: State, t: nat, ids: seq<nat>) returns (ls: seq<Label>, s: State)
    requires Init(s0) && t in s0.threads && 0 < |ids| <= CAP
    requires forall i :: 0 < i < |ids| ==> ids[i] != 0
    ensures Run(s0, ls, s) && t in s.threads && s.threads[t] == Thread(Idle, ids)
    decreases |ids|
  {
    var n := |ids| - 1;
    if n == 0 {
      InitInv(s0);
      ls, s := FirstEnter(s0, t, ids[0]);
      assert ids == [ids[0]];
    } else {
      ls, s := EveryNestingReached(s0, t, ids[..n]);
      ls, s := NestOnce(s0, ls, s, t, ids[n]);
      assert ids[..n] + [ids[n]] == ids;
    }
  }

  /** One more nested enter at the end of a run. */
  lemma NestOnce(s0: State, ls: seq<Label>, s: State, t: nat, id: nat) returns (ls': seq<Label>, s': State)
    requires Init(s0) && Run(s0, ls, s) && t in s.threads && s.threads[t].pc == Idle
    requires s.threads[t].open != [] && id != 0 && |s.threads[t].open| < CAP
    ensures Run(s0, ls', s') && t in s'.threads && s'.threads[t] == Thread(Idle, s.threads[t].open + [id])
  {
    InitInv(s0);
    RunInv(s0, ls, s);
    BeginInv(s, t, Enter(id));
    var s1 := Step(s, Begin(t, Enter(id)));
    RunSnoc(s0, ls, s, Begin(t, Enter(id)));
    s' := NestedEnter(s1, t, id, false);
    RunConcat(s0, ls + [Begin(t, Enter(id))], s1, [Go(t), Go(t), Go(t), Go(t)], s');
    ls' := ls + [Begin(t, Enter(id))] + [Go(t), Go(t), Go(t), Go(t)];
  }

  /** A run from a new lock after which a holder waits for itself: it entered, then called
      `enter(0)`, and no continuation lets it return. */
  lemma EnterZeroDeadlocks(s0: State, t: nat, id: nat) returns (ls: seq<Label>, s: State)
    requires Init(s0) && t in s0.threads
    ensures Run(s0, ls, s) && t in s.threads && s.threads[t] == Thread(LoadOwner(0, false), [id])
    ensures forall ls', s' :: Run(s, ls', s') ==> t in s'.threads && Stuck(s'.threads[t], [id], 0)
  {
    var s1: State;
    InitInv(s0);
    ls, s1 := FirstEnter(s0, t, id);
    RunSnoc(s0, ls, s1, Begin(t, Enter(0)));
    ls, s := ls + [Begin(t, Enter(0))], Step(s1, Begin(t, Enter(0)));
    InitInv(s0);
    RunInv(s0, ls, s);
    forall ls', s' | Run(s, ls', s')
      ensures t in s'.threads && Stuck(s'.threads[t], [id], 0)
    {
      StuckRun(s, ls', s', t, [id], 0);
    }
  }
}
