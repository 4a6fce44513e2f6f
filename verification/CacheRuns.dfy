/** Whole runs of the cache over the disk: it reads as a map of blocks that only puts
    change, whatever the cache holds, whenever it is synchronised and whatever faults occur. */
module CacheRuns {
  import opened Common
  import opened BlockCache
  import opened CacheSync

  datatype State = State(chains: seq<Chain>, blocks: Blocks, errs: nat)

  datatype Op = Fetch(k: nat) | Put(k: nat, data: Data) | Sync | Inject(n: nat)

  /** A miss on a permanently faulty disk retries forever. */
  predicate Spins(s: State, k: nat)
    requires |s.chains| > 0
  {
    !Cached(s.chains, k) && s.errs >= USIZE_MAX
  }

  /** One call, as `Cache.Fetch`, `Cache.Put`, `Cache.SyncAll` and `Disk.SetErrs` leave the
      state; a fetch that never returns changes nothing. */
  function Apply(s: State, op: Op): (r: State)
    requires |s.chains| > 0
    ensures |r.chains| == |s.chains|
  {
    match op
    case Fetch(k) =>
      if Spins(s, k) then s
      else State(FetchSpec(s.chains, s.blocks, k), s.blocks, if Cached(s.chains, k) then s.errs else 0)
    case Put(k, data) => s.(chains := PutSpec(s.chains, k, data))
    case Sync =>
      var (blocks, errs) := WriteBack(Flatten(s.chains), s.blocks, s.errs);
      State(CleanAll(s.chains), blocks, errs)
    case Inject(n) => s.(errs := n)
  }

  function Exec(s: State, ops: seq<Op>): (r: State)
    requires |s.chains| > 0
    ensures |r.chains| == |s.chains|
  {
    if ops == [] then s else Apply(Exec(s, ops[..|ops| - 1]), ops[|ops| - 1])
  }

  /** An empty cache of any number of chains over any disk with any faults. */
  ghost predicate Init(s: State) {
    && |s.chains| > 0
    && forall c :: 0 <= c < |s.chains| ==> s.chains[c] == []
  }

  /** The data last put to block `b`, or what the disk held at the start. */
  function LastPut(s: State, ops: seq<Op>, b: nat): Data {
    if ops == [] then OnDisk(s.blocks, b)
    else
      var op := ops[|ops| - 1];
      if op.Put? && op.k == b then op.data else LastPut(s, ops[..|ops| - 1], b)
  }

  lemma CleanWellHashed(chains: seq<Chain>)
    requires WellHashed(chains)
    ensures WellHashed(CleanAll(chains))
  {
  }

  /** In every run each block is cached at most once, in the chain its hash picks, and
      reads as the last put made it, faults and lost writes notwithstanding. */
  lemma {:induction false} EveryRunReadsLastPut(s: State, ops: seq<Op>, b: nat)
    requires Init(s)
    ensures WellHashed(Exec(s, ops).chains)
    ensures Logical(Exec(s, ops).chains, Exec(s, ops).blocks, b) == LastPut(s, ops, b)
  {
    if ops != [] {
      var before, op := Exec(s, ops[..|ops| - 1]), ops[|ops| - 1];
      EveryRunReadsLastPut(s, ops[..|ops| - 1], b);
      match op
      case Fetch(k) =>
        FetchWellHashed(before.chains, before.blocks, k);
        FetchKeepsLogical(before.chains, before.blocks, k, b);
      case Put(k, data) =>
        PutWellHashed(before.chains, k, data);
        PutLogical(before.chains, before.blocks, k, data);
      case Sync =>
        CleanWellHashed(before.chains);
        SyncKeepsLogical(before.chains, before.blocks, before.errs, b);
      case Inject(_) =>
    }
  }

  /** No synchronisation so far lost anything. */
  ghost predicate NoLoss(s: State, ops: seq<Op>)
    requires |s.chains| > 0
  {
    ops == [] || (NoLoss(s, ops[..|ops| - 1])
                  && (ops[|ops| - 1].Sync? ==>
                        var t := Exec(s, ops[..|ops| - 1]); NothingLost(t.chains, t.blocks, t.errs)))
  }

  lemma {:induction false} CurrentIsClean(chains: seq<Chain>, blocks: Blocks)
    requires WellHashed(chains) && DiskIsCurrent(chains, blocks)
    ensures CleanAgrees(chains, blocks)
  {
    forall c, i | 0 <= c < |chains| && 0 <= i < |chains[c]| && !chains[c][i].modified
      ensures chains[c][i].payload == OnDisk(blocks, chains[c][i].id)
    {
      FindUnique(chains[c], chains[c][i].id, i);
      assert OnDisk(blocks, chains[c][i].id) == Logical(chains, blocks, chains[c][i].id);
    }
  }

  /** While nothing has been lost, unmodified slots agree with the disk. */
  lemma {:induction false} CleanWhileNoLoss(s: State, ops: seq<Op>)
    requires Init(s) && NoLoss(s, ops)
    ensures CleanAgrees(Exec(s, ops).chains, Exec(s, ops).blocks)
  {
    if ops != [] {
      var n := |ops| - 1;
      var before := Exec(s, ops[..n]);
      CleanWhileNoLoss(s, ops[..n]);
      EveryRunReadsLastPut(s, ops[..n], 0);
      match ops[n]
      case Fetch(k) => FetchEffects(before.chains, before.blocks, k);
      case Put(k, data) => PutCleanAgrees(before.chains, before.blocks, k, data);
      case Sync =>
        SyncMakesDiskCurrentIff(before.chains, before.blocks, before.errs);
        CleanWellHashed(before.chains);
        CurrentIsClean(Exec(s, ops).chains, Exec(s, ops).blocks);
      case Inject(_) =>
    }
  }

  /** Durability, for every run: a synchronisation leaves nothing dirty, and makes the disk
      alone hold every last put if and only if the clean slots agreed with the disk, which
      they do while no earlier synchronisation lost anything, and it loses nothing itself. */
  lemma SyncMakesDurable(s: State, ops: seq<Op>)
    requires Init(s)
    ensures var t := Exec(s, ops);
            var t' := Apply(t, Sync);
            && Dirty(Flatten(t'.chains)) == 0
            && ((forall b :: OnDisk(t'.blocks, b) == LastPut(s, ops, b))
                <==> CleanAgrees(t.chains, t.blocks) && NothingLost(t.chains, t.blocks, t.errs))
            && (NoLoss(s, ops) ==> CleanAgrees(t.chains, t.blocks))
            && (t.errs == 0 && FullBlocks(t.chains) ==> NothingLost(t.chains, t.blocks, t.errs))
  {
    var t := Exec(s, ops);
    var t' := Apply(t, Sync);
    EveryRunReadsLastPut(s, ops, 0);
    if NoLoss(s, ops) {
      CleanWhileNoLoss(s, ops);
    }
    if t.errs == 0 && FullBlocks(t.chains) {
      FullBlocksNotLost(t.chains, t.blocks);
    }
    SyncCleans(t.chains);
    SyncMakesDiskCurrentIff(t.chains, t.blocks, t.errs);
    forall b
      ensures Logical(t'.chains, t'.blocks, b) == LastPut(s, ops, b)
    {
      EveryRunReadsLastPut(s, ops, b);
      SyncKeepsLogical(t.chains, t.blocks, t.errs, b);
    }
  }

  // ---- durability from the calls made ---------------------------------------

  ghost predicate WholePuts(ops: seq<Op>) {
    forall i :: 0 <= i < |ops| && ops[i].Put? ==> |ops[i].data| == BLOCK_SZ
  }

  /** A synchronisation of `s` writes without meeting a fault. */
  predicate WritesSucceed(s: State) {
    s.errs == 0 || Dirty(Flatten(s.chains)) == 0
  }

  /** No write of the run has failed. */
  predicate NoWriteFails(s: State, ops: seq<Op>)
    requires |s.chains| > 0
  {
    ops == [] || (NoWriteFails(s, ops[..|ops| - 1])
                  && (ops[|ops| - 1].Sync? ==> WritesSucceed(Exec(s, ops[..|ops| - 1]))))
  }

  lemma {:induction false} WholePutsStayWhole(s: State, ops: seq<Op>)
    requires Init(s) && WholePuts(ops)
    ensures FullBlocks(Exec(s, ops).chains)
  {
    if ops != [] {
      var n := |ops| - 1;
      var before := Exec(s, ops[..n]);
      WholePutsStayWhole(s, ops[..n]);
      match ops[n]
      case Fetch(k) => FetchFullBlocks(before.chains, before.blocks, k);
      case Put(k, data) => PutFullBlocks(before.chains, k, data);
      case Sync =>
      case Inject(_) =>
    }
  }

  lemma {:induction false} NotDirty(slots: Chain)
    requires Dirty(slots) == 0
    ensures forall i :: 0 <= i < |slots| ==> !slots[i].modified
  {
    if slots != [] {
      NotDirty(slots[..|slots| - 1]);
    }
  }

  lemma SuccessLosesNothing(t: State)
    requires FullBlocks(t.chains) && WritesSucceed(t)
    ensures NothingLost(t.chains, t.blocks, t.errs)
  {
    if t.errs == 0 {
      FullBlocksNotLost(t.chains, t.blocks);
    } else {
      NotDirty(Flatten(t.chains));
    }
  }

  lemma {:induction false} SuccessfulRunLosesNothing(s: State, ops: seq<Op>)
    requires Init(s) && WholePuts(ops) && NoWriteFails(s, ops)
    ensures NoLoss(s, ops)
  {
    if ops != [] {
      var n := |ops| - 1;
      SuccessfulRunLosesNothing(s, ops[..n]);
      if ops[n].Sync? {
        WholePutsStayWhole(s, ops[..n]);
        SuccessLosesNothing(Exec(s, ops[..n]));
      }
    }
  }

  /** If every put carries a whole block and no write has failed, wherever faults were injected
      meanwhile, then after a synchronisation the disk alone holds every last put. */
  lemma WholePutsAreDurable(s: State, ops: seq<Op>)
    requires Init(s) && WholePuts(ops) && NoWriteFails(s, ops + [Sync])
    ensures NoLoss(s, ops + [Sync])
    ensures forall b :: OnDisk(Exec(s, ops + [Sync]).blocks, b) == LastPut(s, ops, b)
  {
    assert (ops + [Sync])[..|ops|] == ops;
    SuccessfulRunLosesNothing(s, ops);
    WholePutsStayWhole(s, ops);
    SuccessLosesNothing(Exec(s, ops));
    SyncMakesDurable(s, ops);
  }

  lemma {:induction false} NoFaultsNoFailures(s: State, ops: seq<Op>)
    requires Init(s) && s.errs == 0 && forall i :: 0 <= i < |ops| && ops[i].Inject? ==> ops[i].n == 0
    ensures NoWriteFails(s, ops) && Exec(s, ops).errs == 0
  {
    if ops != [] {
      var n := |ops| - 1;
      var before := Exec(s, ops[..n]);
      NoFaultsNoFailures(s, ops[..n]);
      if ops[n].Sync? {
        ErrsAfter(Flatten(before.chains), before.blocks, before.errs);
      }
    }
  }

  /** Without injected faults every run of whole-block puts is durable after a
      synchronisation. */
  lemma FaultlessRunIsDurable(s: State, ops: seq<Op>)
    requires Init(s) && s.errs == 0 && WholePuts(ops)
    requires forall i :: 0 <= i < |ops| && ops[i].Inject? ==> ops[i].n == 0
    ensures forall b :: OnDisk(Exec(s, ops + [Sync]).blocks, b) == LastPut(s, ops, b)
  {
    assert (ops + [Sync])[..|ops|] == ops;
    NoFaultsNoFailures(s, ops);
    WholePutsAreDurable(s, ops);
  }

  /** Faults injected in the middle of a run do lose data: here the only synchronisation is
      swallowed, the marks are cleared all the same, and no later one writes the block. */
  lemma InjectedFaultLosesPut(data: Data)
    requires |data| == BLOCK_SZ && data != Blank(BLOCK_SZ)
    ensures var s := State([[]], map[], 0);
            var ops := [Put(0, data), Inject(1), Sync, Sync];
            && Init(s) && WholePuts(ops)
            && OnDisk(Exec(s, ops).blocks, 0) == Blank(BLOCK_SZ)
            && LastPut(s, ops, 0) == data && !NoWriteFails(s, ops)
  {
    var s := State([[]], map[], 0);
    var put := [Put(0, data)];
    var injected := put + [Inject(1)];
    var synced := injected + [Sync];
    PutFirst(data);
    ExecSnoc(s, put, Inject(1), 0);
    OneSlotSync(Slot(0, data, true), map[], 1);
    ExecSnoc(s, injected, Sync, 0);
    OneSlotSync(Slot(0, data, false), map[], 0);
    ExecSnoc(s, synced, Sync, 0);
    assert synced + [Sync] == [Put(0, data), Inject(1), Sync, Sync];
  }

  lemma ExecSnoc(s: State, ops: seq<Op>, op: Op, b: nat)
    requires |s.chains| > 0
    ensures Exec(s, ops + [op]) == Apply(Exec(s, ops), op)
    ensures LastPut(s, ops + [op], b) == if op.Put? && op.k == b then op.data else LastPut(s, ops, b)
    ensures NoWriteFails(s, ops + [op]) <==> NoWriteFails(s, ops) && (op.Sync? ==> WritesSucceed(Exec(s, ops)))
  {
    assert (ops + [op])[..|ops|] == ops;
  }

  /** One put into an empty cache of one chain. */
  lemma PutFirst(data: Data)
    ensures var s := State([[]], map[], 0);
            && Init(s) && Exec(s, [Put(0, data)]) == State([[Slot(0, data, true)]], map[], 0)
            && LastPut(s, [Put(0, data)], 0) == data
  {
    var s := State([[]], map[], 0);
    assert [] + [Put(0, data)] == [Put(0, data)];
    ExecSnoc(s, [], Put(0, data), 0);
    assert Hash(0, 1) == 0 && PutInChain([], 0, data) == [Slot(0, data, true)];
  }

  lemma OneSlotSync(x: Slot, blocks: Blocks, errs: nat)
    ensures Flatten([[x]]) == [x] && Dirty([x]) == (if x.modified then 1 else 0)
    ensures var (blocks', errs') := WriteBack([x], blocks, errs);
            Apply(State([[x]], blocks, errs), Sync) == State([[Clean(x)]], blocks', errs')
    ensures WriteBack([x], blocks, errs)
         == if !x.modified then (blocks, errs)
            else if errs == 0 then (blocks[x.id := Fit(x.payload, BLOCK_SZ)], errs)
            else (blocks, Consume(errs))
  {
    assert [[x]][1..] == [] && [x][1..] == [] && [x][..0] == [];
    assert Flatten([[x]]) == [x] + Flatten([]);
    WriteBackOne(x, blocks, errs);
    assert CleanChain([x]) == [Clean(x)];
    assert CleanAll([[x]]) == [[Clean(x)]];
  }

  // ---- short puts -----------------------------------------------------------

  /** The length condition is needed: after a put of one byte to a new disk and a
      synchronisation without faults, the disk holds a padded block and the cache the byte. */
  lemma ShortPutNotDurable()
    ensures var s := State([[]], map[], 0);
            var ops := [Put(0, [1])];
            var t := Apply(Exec(s, ops), Sync);
            && Init(s) && NoLoss(s, ops)
            && OnDisk(t.blocks, 0) == Fit([1], BLOCK_SZ)
            && Logical(t.chains, t.blocks, 0) == LastPut(s, ops, 0) == [1]
            && !(forall b :: OnDisk(t.blocks, b) == LastPut(s, ops, b))
  {
    var s := State([[]], map[], 0);
    PutFirst([1]);
    OneSlotSync(Slot(0, [1], true), map[], 0);
    var t := Apply(Exec(s, [Put(0, [1])]), Sync);
    assert t == State([[Slot(0, [1], false)]], map[0 := Fit([1], BLOCK_SZ)], 0);
    assert Hash(0, 1) == 0 && Find([Slot(0, [1], false)], 0) == 0;
    assert |OnDisk(t.blocks, 0)| == BLOCK_SZ;
  }
}
