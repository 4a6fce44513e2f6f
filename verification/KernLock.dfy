/** The re-entrant kernel lock, one step per atomic load, store or compare-and-swap, for
    any number of threads in any interleaving. */
module KernLock {

  const CAP: nat := 16

  /** The atomics of the lock. */
  datatype Shared = Shared(flag: bool, depth: nat, owner: nat, stack: seq<nat>)

  /** Where a thread stands: the atomic operation it performs next. */
  datatype Pc =
    | Idle
    | LoadOwner(id: nat, once: bool)
    | LoadDepth(id: nat, once: bool, mine: bool)
    | PushId(id: nat, d: nat)
    | BumpDepth(id: nat)
    | TryFlag(id: nat, once: bool)
    | ClearSlot(id: nat, i: nat)
    | StoreId(id: nat)
    | StoreDepth(id: nat)
    | StoreOwner(id: nat)
    | LeaveLoadDepth
    | PopSlot(d: nat)
    | PopDepth(d: nat)
    | WipeSlot(i: nat)
    | WipeDepth
    | WipeOwner
    | DropFlag
    | Panicked

  /** `open` is the history of the thread: the ids of its enters not yet left. */
  datatype Thread = Thread(pc: Pc, open: seq<nat>)

  datatype State = State(lock: Shared, threads: map<nat, Thread>)

  const ZEROS: seq<nat> := [0, 0, 0, 0, 0, 0, 0, 0, 0, 0, 0, 0, 0, 0, 0, 0]

  /** A new lock and any threads, none inside a call; thread ids are never zero. */
  ghost predicate Init(s: State) {
    && s.lock == Shared(false, 0, 0, ZEROS)
    && forall t :: t in s.threads ==> t != 0 && s.threads[t] == Thread(Idle, [])
  }

  // ---- steps ----------------------------------------------------------------

  datatype Call = Enter(id: nat) | TryEnter(id: nat) | Leave

  /** Only a thread with an open enter calls `leave`. */
  predicate MayCall(th: Thread, c: Call) {
    th.pc == Idle && (c.Leave? ==> th.open != [])
  }

  function Start(th: Thread, c: Call): Thread {
    match c
    case Enter(id) => th.(pc := LoadOwner(id, false))
    case TryEnter(id) => th.(pc := LoadOwner(id, true))
    case Leave => th.(pc := LeaveLoadDepth)
  }

  predicate Running(th: Thread) {
    th.pc != Idle && th.pc != Panicked
  }

  function Store(stack: seq<nat>, i: nat, v: nat): seq<nat> {
    if i < |stack| then stack[i := v] else stack
  }

  /** The next atomic operation of thread `t`. */
  function Move(k: Shared, t: nat, th: Thread): (Shared, Thread) {
    match th.pc
    case Idle => (k, th)
    case Panicked => (k, th)
    case LoadOwner(id, once) =>
      // try_enter reads the depth only when it is about to re-enter
      if once && (k.owner != t || id == 0) then (k, th.(pc := TryFlag(id, once)))
      else (k, th.(pc := LoadDepth(id, once, k.owner == t)))
    case LoadDepth(id, once, mine) =>
      if mine && id != 0 then
        if k.depth < CAP then (k, th.(pc := PushId(id, k.depth))) else (k, th.(pc := Panicked))
      else (k, th.(pc := TryFlag(id, once)))
    case PushId(id, d) => (k.(stack := Store(k.stack, d, id)), th.(pc := BumpDepth(id)))
    case BumpDepth(id) => (k.(depth := k.depth + 1), Thread(Idle, th.open + [id]))
    case TryFlag(id, once) =>
      if !k.flag then (k.(flag := true), th.(pc := ClearSlot(id, 0)))
      else if once then (k, th.(pc := Idle))
      else (k, th)
    case ClearSlot(id, i) =>
      (k.(stack := Store(k.stack, i, 0)), th.(pc := if i + 1 < CAP then ClearSlot(id, i + 1) else StoreId(id)))
    case StoreId(id) => (k.(stack := Store(k.stack, 0, id)), th.(pc := StoreDepth(id)))
    case StoreDepth(id) => (k.(depth := 1), th.(pc := StoreOwner(id)))
    case StoreOwner(id) => (k.(owner := t), Thread(Idle, [id]))
    case LeaveLoadDepth => (k, th.(pc := if k.depth > 1 then PopSlot(k.depth) else WipeSlot(0)))
    case PopSlot(d) => (k.(stack := Store(k.stack, if d > 0 then d - 1 else 0, 0)), th.(pc := PopDepth(d)))
    case PopDepth(d) =>
      (k.(depth := if d > 0 then d - 1 else 0), Thread(Idle, if th.open == [] then [] else th.open[..|th.open| - 1]))
    case WipeSlot(i) =>
      (k.(stack := Store(k.stack, i, 0)), th.(pc := if i + 1 < CAP then WipeSlot(i + 1) else WipeDepth))
    case WipeDepth => (k.(depth := 0), th.(pc := WipeOwner))
    case WipeOwner => (k.(owner := 0), th.(pc := DropFlag))
    case DropFlag => (k.(flag := false), Thread(Idle, []))
  }

  datatype Label = Begin(t: nat, call: Call) | Go(t: nat)

  predicate Enabled(s: State, l: Label) {
    && l.t in s.threads
    && match l
       case Begin(t, c) => MayCall(s.threads[t], c)
       case Go(t) => Running(s.threads[t])
  }

  function Step(s: State, l: Label): State
    requires Enabled(s, l)
  {
    match l
    case Begin(t, c) => s.(threads := s.threads[t := Start(s.threads[t], c)])
    case Go(t) =>
      var (k, th) := Move(s.lock, t, s.threads[t]);
      State(k, s.threads[t := th])
  }

  predicate Run(s: State, ls: seq<Label>, s': State)
    decreases |ls|
  {
    if ls == [] then s' == s else Enabled(s, ls[0]) && Run(Step(s, ls[0]), ls[1..], s')
  }

  // ---- invariant ------------------------------------------------------------

  /** Between winning the flag and publishing ownership. */
  predicate Acquiring(pc: Pc) {
    pc.ClearSlot? || pc.StoreId? || pc.StoreDepth? || pc.StoreOwner?
  }

  /** The thread won the flag and has not dropped it. */
  predicate Holds(th: Thread) {
    Acquiring(th.pc) || th.open != []
  }

  predicate Releasing(pc: Pc) {
    pc.WipeSlot? || pc.WipeDepth? || pc.WipeOwner? || pc.DropFlag?
  }

  /** What a thread knows on its own. */
  predicate LocalInv(th: Thread) {
    && (Acquiring(th.pc) ==> th.open == [])
    && (Releasing(th.pc) ==> |th.open| == 1)
    && |th.open| <= CAP
    && match th.pc
       case LoadDepth(_, _, mine) => mine <==> th.open != []
       case PushId(_, d) => d == |th.open| && 0 < d < CAP
       case BumpDepth(_) => 0 < |th.open| < CAP
       case PopSlot(d) => d == |th.open| > 1
       case PopDepth(d) => d == |th.open| > 1
       case LeaveLoadDepth => th.open != []
       case ClearSlot(_, i) => i < CAP
       case WipeSlot(i) => i < CAP
       case Panicked => |th.open| == CAP
       case _ => true
  }

  predicate FreeLock(k: Shared) {
    k.depth == 0 && k.owner == 0 && k.stack == ZEROS
  }

  /** The ids from the bottom of the stack, zeros above. */
  function Padded(ids: seq<nat>): (r: seq<nat>)
    ensures |ids| <= CAP ==> |r| == CAP && r[..|ids|] == ids
  {
    if |ids| <= CAP then ids + seq(CAP - |ids|, i => 0) else ids
  }

  /** Ownership is published and the stack lists exactly the open enters, in order. */
  predicate Published(k: Shared, t: nat, open: seq<nat>) {
    k.owner == t && k.depth == |open| && k.stack == Padded(open)
  }

  /** What the atomics say while thread `t` holds the lock. */
  predicate HolderInv(k: Shared, t: nat, th: Thread) {
    match th.pc
    case ClearSlot(_, _) => FreeLock(k)
    case StoreId(_) => FreeLock(k)
    case StoreDepth(id) => k.depth == 0 && k.owner == 0 && k.stack == Padded([id])
    case StoreOwner(id) => k.depth == 1 && k.owner == 0 && k.stack == Padded([id])
    case BumpDepth(id) => k.owner == t && k.depth == |th.open| && k.stack == Padded(th.open + [id])
    case PopDepth(d) =>
      th.open != [] && k.owner == t && k.depth == |th.open| && k.stack == Padded(th.open[..|th.open| - 1])
    case WipeSlot(i) => if i == 0 then Published(k, t, th.open) else k.owner == t && k.depth == 1 && k.stack == ZEROS
    case WipeDepth => k.owner == t && k.depth == 1 && k.stack == ZEROS
    case WipeOwner => k.owner == t && k.depth == 0 && k.stack == ZEROS
    case DropFlag => FreeLock(k)
    case _ => Published(k, t, th.open)
  }

  ghost predicate Inv(s: State) {
    && |s.lock.stack| == CAP
    && (forall t :: t in s.threads ==> t != 0 && LocalInv(s.threads[t]))
    && (forall t :: t in s.threads && Holds(s.threads[t]) ==> s.lock.flag && HolderInv(s.lock, t, s.threads[t]))
    && (forall t, u :: t in s.threads && u in s.threads && Holds(s.threads[t]) && Holds(s.threads[u]) ==> t == u)
    && (s.lock.flag ==> exists t :: t in s.threads && Holds(s.threads[t]))
    && (!s.lock.flag ==> FreeLock(s.lock))
  }

  lemma InitInv(s: State)
    requires Init(s)
    ensures Inv(s)
  {
  }

  lemma PaddedFacts(open: seq<nat>, id: nat)
    requires |open| < CAP
    ensures Store(Padded(open), |open|, id) == Padded(open + [id])
    ensures Store(Padded(open + [id]), |open|, 0) == Padded(open)
    ensures Padded([]) == ZEROS
  {
  }

  /** A holder's step leaves it with the picture its next position requires, or frees the lock. */
  predicate HolderKeeps(k: Shared, t: nat, th: Thread) {
    var (k', th') := Move(k, t, th);
    && LocalInv(th')
    && (Holds(th') <==> th.pc != DropFlag)
    && (Holds(th') ==> k'.flag && HolderInv(k', t, th'))
    && (th.pc == DropFlag ==> !k'.flag && FreeLock(k'))
  }

  lemma AcquireMove(k: Shared, t: nat, th: Thread)
    requires LocalInv(th) && Holds(th) && Running(th) && k.flag && HolderInv(k, t, th) && t != 0
    requires Acquiring(th.pc)
    ensures HolderKeeps(k, t, th)
  {
    if th.pc.StoreId? { PaddedFacts([], th.pc.id); }
    if th.pc.ClearSlot? { StoreZero(th.pc.i); }
  }

  lemma WipeMove(k: Shared, t: nat, th: Thread)
    requires LocalInv(th) && Holds(th) && Running(th) && k.flag && HolderInv(k, t, th) && t != 0
    requires th.pc.WipeSlot?
    ensures HolderKeeps(k, t, th)
  {
    WipeBottom(th.open);
    StoreZero(th.pc.i);
    assert Move(k, t, th).0 == k.(stack := ZEROS);
  }

  lemma WipeBottom(open: seq<nat>)
    requires |open| == 1
    ensures Store(Padded(open), 0, 0) == ZEROS
  {
    assert open == [] + [open[0]];
    PaddedFacts([], open[0]);
  }

  lemma StoreZero(i: nat)
    ensures Store(ZEROS, i, 0) == ZEROS
  {
  }

  lemma ReleaseMove(k: Shared, t: nat, th: Thread)
    requires LocalInv(th) && Holds(th) && Running(th) && k.flag && HolderInv(k, t, th) && t != 0
    requires th.pc.WipeDepth? || th.pc.WipeOwner? || th.pc.DropFlag?
    ensures HolderKeeps(k, t, th)
  {
  }

  lemma PushMove(k: Shared, t: nat, th: Thread)
    requires LocalInv(th) && Holds(th) && Running(th) && k.flag && HolderInv(k, t, th) && t != 0
    requires th.pc.PushId? || th.pc.BumpDepth?
    ensures HolderKeeps(k, t, th)
  {
    PaddedFacts(th.open, th.pc.id);
  }

  lemma PopMove(k: Shared, t: nat, th: Thread)
    requires LocalInv(th) && Holds(th) && Running(th) && k.flag && HolderInv(k, t, th) && t != 0
    requires th.pc.PopSlot? || th.pc.PopDepth?
    ensures HolderKeeps(k, t, th)
  {
    var n := |th.open| - 1;
    assert th.open == th.open[..n] + [th.open[n]];
    PaddedFacts(th.open[..n], th.open[n]);
  }

  lemma LookMove(k: Shared, t: nat, th: Thread)
    requires LocalInv(th) && Holds(th) && Running(th) && k.flag && HolderInv(k, t, th) && t != 0
    requires th.pc.LoadOwner? || th.pc.LoadDepth? || th.pc.TryFlag? || th.pc.LeaveLoadDepth?
    ensures HolderKeeps(k, t, th)
  {
  }

  lemma HolderMove(k: Shared, t: nat, th: Thread)
    requires LocalInv(th) && Holds(th) && Running(th) && k.flag && HolderInv(k, t, th) && t != 0
    ensures HolderKeeps(k, t, th)
  {
    match th.pc
    case LoadOwner(_, _) => LookMove(k, t, th);
    case LoadDepth(_, _, _) => LookMove(k, t, th);
    case TryFlag(_, _) => LookMove(k, t, th);
    case LeaveLoadDepth => LookMove(k, t, th);
    case PushId(_, _) => PushMove(k, t, th);
    case BumpDepth(_) => PushMove(k, t, th);
    case PopSlot(_) => PopMove(k, t, th);
    case PopDepth(_) => PopMove(k, t, th);
    case WipeSlot(_) => WipeMove(k, t, th);
    case _ => if Acquiring(th.pc) { AcquireMove(k, t, th); } else { ReleaseMove(k, t, th); }
  }

  /** Anyone else's step changes nothing but a free flag. */
  lemma OtherMove(k: Shared, t: nat, th: Thread)
    requires LocalInv(th) && !Holds(th) && Running(th) && k.owner != t
    ensures var (k', th') := Move(k, t, th);
            && LocalInv(th')
            && k' == k.(flag := k'.flag)
            && (k.flag ==> k'.flag && !Holds(th'))
            && (Holds(th') <==> k'.flag && !k.flag)
            && (Holds(th') ==> th'.pc.ClearSlot?)
  {
  }

  // ---- every interleaving ---------------------------------------------------

  /** `owner` names the holder or nobody. */
  lemma OwnerHolds(s: State, t: nat)
    requires Inv(s) && t in s.threads && s.lock.owner == t
    ensures Holds(s.threads[t]) && s.threads[t].open != []
  {
    assert s.lock.flag;
    var h :| h in s.threads && Holds(s.threads[h]);
    assert HolderInv(s.lock, h, s.threads[h]) && LocalInv(s.threads[h]);
    assert h == t;
  }

  /** Neither about to lower `depth` nor releasing. */
  predicate Counted(pc: Pc) {
    !pc.PopDepth? && !Releasing(pc)
  }

  /** `depth` counts the open enters of `t` and the stack lists them from the bottom. */
  predicate Listed(k: Shared, t: nat, open: seq<nat>) {
    k.owner == t && k.depth == |open| <= |k.stack| && k.stack[..k.depth] == open
  }

  lemma HolderListed(k: Shared, t: nat, th: Thread)
    requires LocalInv(th) && HolderInv(k, t, th) && th.open != [] && Counted(th.pc)
    ensures Listed(k, t, th.open)
  {
    if th.pc.BumpDepth? {
      var ids := th.open + [th.pc.id];
      assert Padded(ids)[..|ids|][..|th.open|] == th.open;
    }
  }

  lemma StartKeeps(k: Shared, t: nat, th: Thread, c: Call)
    requires LocalInv(th) && MayCall(th, c)
    ensures LocalInv(Start(th, c))
    ensures Holds(Start(th, c)) <==> Holds(th)
    ensures HolderInv(k, t, th) ==> HolderInv(k, t, Start(th, c))
  {
  }

  lemma BeginInv(s: State, t: nat, c: Call)
    requires Inv(s) && Enabled(s, Begin(t, c))
    ensures Inv(Step(s, Begin(t, c)))
  {
    var s' := Step(s, Begin(t, c));
    StartKeeps(s.lock, t, s.threads[t], c);
    if s.lock.flag {
      var h :| h in s.threads && Holds(s.threads[h]);
      assert h in s'.threads && Holds(s'.threads[h]);
    }
  }

  lemma GoInv(s: State, t: nat)
    requires Inv(s) && Enabled(s, Go(t))
    ensures Inv(Step(s, Go(t)))
  {
    if Holds(s.threads[t]) {
      HolderGoInv(s, t);
    } else {
      if s.lock.owner == t { OwnerHolds(s, t); }
      OtherGoInv(s, t);
    }
  }

  lemma HolderGoInv(s: State, t: nat)
    requires Inv(s) && Enabled(s, Go(t)) && Holds(s.threads[t])
    ensures Inv(Step(s, Go(t)))
  {
    var s' := Step(s, Go(t));
    HolderMove(s.lock, t, s.threads[t]);
    assert HolderKeeps(s.lock, t, s.threads[t]);
    forall u | u in s'.threads && Holds(s'.threads[u])
      ensures u == t
    {
    }
    if s'.lock.flag {
      assert t in s'.threads && Holds(s'.threads[t]);
    }
  }

  lemma OtherGoInv(s: State, t: nat)
    requires Inv(s) && Enabled(s, Go(t)) && !Holds(s.threads[t]) && s.lock.owner != t
    ensures Inv(Step(s, Go(t)))
  {
    var s' := Step(s, Go(t));
    OtherMove(s.lock, t, s.threads[t]);
    if s.lock.flag {
      var h :| h in s.threads && Holds(s.threads[h]);
      assert h in s'.threads && Holds(s'.threads[h]);
    } else if s'.lock.flag {
      assert t in s'.threads && Holds(s'.threads[t]);
    }
  }

  lemma {:induction false} RunInv(s: State, ls: seq<Label>, s': State)
    requires Inv(s) && Run(s, ls, s')
    ensures Inv(s')
    decreases |ls|
  {
    if ls != [] {
      match ls[0]
      case Begin(t, c) => BeginInv(s, t, c); RunInv(Step(s, ls[0]), ls[1..], s');
      case Go(t) => GoInv(s, t); RunInv(Step(s, ls[0]), ls[1..], s');
    }
  }

  /** In every reachable state of any number of threads: at most one is inside; the
      thread `owner` names is inside; and unless the holder is about to lower `depth` or
      releasing, `depth` counts its open enters and the stack lists them in order, with
      zeros above when it is between calls. */
  lemma MutualExclusion(s0: State, ls: seq<Label>, s: State)
    requires Init(s0) && Run(s0, ls, s)
    ensures forall t, u :: t in s.threads && u in s.threads && s.threads[t].open != [] && s.threads[u].open != []
              ==> t == u
    ensures forall t :: t in s.threads && s.threads[t].open != [] ==> s.lock.flag
    ensures forall t :: t in s.threads && s.lock.owner == t ==> s.threads[t].open != []
    ensures forall t :: t in s.threads && s.threads[t].open != [] && Counted(s.threads[t].pc)
              ==> Listed(s.lock, t, s.threads[t].open)
    ensures forall t :: t in s.threads && s.threads[t].pc == Idle && s.threads[t].open != []
              ==> s.lock.stack == Padded(s.threads[t].open)
  {
    InitInv(s0);
    RunInv(s0, ls, s);
    forall t | t in s.threads && s.threads[t].open != [] && Counted(s.threads[t].pc)
      ensures Listed(s.lock, t, s.threads[t].open)
    {
      HolderListed(s.lock, t, s.threads[t]);
    }
    forall t | t in s.threads && s.lock.owner == t
      ensures s.threads[t].open != []
    {
      OwnerHolds(s, t);
    }
  }

  /** The lock is freed exactly when a thread finishes leaving its one open enter. */
  lemma FreedExactlyAtOutermostLeave(s0: State, ls: seq<Label>, s: State, l: Label)
    requires Init(s0) && Run(s0, ls, s) && Enabled(s, l)
    ensures var s' := Step(s, l);
            && (s.lock.flag && !s'.lock.flag <==> s.threads[l.t].open != [] && s'.threads[l.t].open == [])
            && (s.lock.flag && !s'.lock.flag ==> |s.threads[l.t].open| == 1 && FreeLock(s'.lock))
  {
    InitInv(s0);
    RunInv(s0, ls, s);
    var th := s.threads[l.t];
    if l.Go? {
      if Holds(th) {
        HolderMove(s.lock, l.t, th);
        assert HolderKeeps(s.lock, l.t, th);
      } else {
        if s.lock.owner == l.t { OwnerHolds(s, l.t); }
        OtherMove(s.lock, l.t, th);
      }
    }
  }

  /** While a thread holds the lock no other thread's step changes any of its atomics. */
  lemma OthersDoNotInterfere(s0: State, ls: seq<Label>, s: State, h: nat, l: Label)
    requires Init(s0) && Run(s0, ls, s) && Enabled(s, l)
    requires h in s.threads && Holds(s.threads[h]) && l.t != h
    ensures Step(s, l).lock == s.lock && Step(s, l).threads[h] == s.threads[h]
  {
    InitInv(s0);
    RunInv(s0, ls, s);
    if l.Go? {
      if s.lock.owner == l.t { OwnerHolds(s, l.t); }
      assert !Holds(s.threads[l.t]);
      OtherMove(s.lock, l.t, s.threads[l.t]);
    }
  }
}
