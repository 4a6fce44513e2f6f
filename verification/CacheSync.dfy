/** Write-back: what `sync_all` leaves in the cache and on the disk, faults included. */
module CacheSync {
  import opened Common
  import opened BlockCache

  function CleanAll(chains: seq<Chain>): (r: seq<Chain>)
    ensures |r| == |chains|
    ensures forall c :: 0 <= c < |r| ==> r[c] == CleanChain(chains[c])
  {
    seq(|chains|, c requires 0 <= c < |chains| => CleanChain(chains[c]))
  }

  // ---- the slots of all chains as one list ----------------------------------

  ghost predicate Distinct(slots: Chain) {
    forall i, j :: 0 <= i < j < |slots| ==> slots[i].id != slots[j].id
  }

  /** Chains `lo`, `lo + 1`, ... of a cache with `w` chains. */
  ghost predicate HashedFrom(chains: seq<Chain>, lo: nat, w: nat) {
    && w > 0
    && (forall c, i :: 0 <= c < |chains| && 0 <= i < |chains[c]| ==> Hash(chains[c][i].id, w) == lo + c)
    && (forall c, i, j :: 0 <= c < |chains| && 0 <= i < j < |chains[c]| ==> chains[c][i].id != chains[c][j].id)
  }

  lemma {:induction false} FlattenDistinct(chains: seq<Chain>, lo: nat, w: nat)
    requires HashedFrom(chains, lo, w)
    ensures Distinct(Flatten(chains))
    ensures forall i :: 0 <= i < |Flatten(chains)| ==> Hash(Flatten(chains)[i].id, w) >= lo
  {
    if chains != [] {
      assert forall c :: 0 <= c < |chains| - 1 ==> chains[1..][c] == chains[c + 1];
      FlattenDistinct(chains[1..], lo + 1, w);
    }
  }

  /** Where slot `i` of chain `c` stands in the flat list. */
  lemma {:induction false} FlattenHolds(chains: seq<Chain>, c: nat, i: nat) returns (n: nat)
    requires c < |chains| && i < |chains[c]|
    ensures n < |Flatten(chains)| && Flatten(chains)[n] == chains[c][i]
    decreases c
  {
    if c == 0 {
      n := i;
    } else {
      n := FlattenHolds(chains[1..], c - 1, i);
      n := n + |chains[0]|;
    }
  }

  lemma {:induction false} FlattenFrom(chains: seq<Chain>, n: nat) returns (c: nat, i: nat)
    requires n < |Flatten(chains)|
    ensures c < |chains| && i < |chains[c]| && Flatten(chains)[n] == chains[c][i]
    decreases |chains|
  {
    if n < |chains[0]| {
      c, i := 0, n;
    } else {
      c, i := FlattenFrom(chains[1..], n - |chains[0]|);
      c := c + 1;
    }
  }

  // ---- one pass of write-back -----------------------------------------------

  lemma WriteBackUntouched(slots: Chain, blocks: Blocks, errs: nat, b: nat)
    requires forall i :: 0 <= i < |slots| ==> slots[i].id != b
    ensures OnDisk(WriteBack(slots, blocks, errs).0, b) == OnDisk(blocks, b)
  {
    if slots != [] {
      assert forall i :: 0 <= i < |slots| - 1 ==> slots[1..][i] == slots[i + 1];
    }
  }

  /** Each modified slot met uses up one fault, unless the fault is permanent. */
  lemma {:induction false} ErrsAfter(slots: Chain, blocks: Blocks, errs: nat)
    ensures WriteBack(slots, blocks, errs).1
         == if errs >= USIZE_MAX then errs else if errs <= Dirty(slots) then 0 else errs - Dirty(slots)
  {
    if slots != [] {
      var n := |slots| - 1;
      ErrsAfter(slots[..n], blocks, errs);
      assert slots == slots[..n] + [slots[n]];
      WriteBackConcat(slots[..n], [slots[n]], blocks, errs);
      var (blocks', errs') := WriteBack(slots[..n], blocks, errs);
      WriteBackOne(slots[n], blocks', errs');
    }
  }

  /** The write of slot `n` is one of those the injected faults swallow. */
  predicate Lost(slots: Chain, n: nat, errs: nat)
    requires n < |slots|
  {
    slots[n].modified && (errs >= USIZE_MAX || Dirty(slots[..n]) < errs)
  }

  lemma WriteBackSlot(slots: Chain, blocks: Blocks, errs: nat, n: nat)
    requires Distinct(slots) && n < |slots|
    ensures OnDisk(WriteBack(slots, blocks, errs).0, slots[n].id)
         == if slots[n].modified && !Lost(slots, n, errs) then Fit(slots[n].payload, BLOCK_SZ)
            else OnDisk(blocks, slots[n].id)
  {
    var before, s, after := slots[..n], slots[n], slots[n + 1..];
    var (b1, e1) := WriteBack(before, blocks, errs);
    var (b2, e2) := WriteBack([s], b1, e1);
    assert slots == before + ([s] + after);
    WriteBackConcat(before, [s] + after, blocks, errs);
    WriteBackConcat([s], after, b1, e1);
    ErrsAfter(before, blocks, errs);
    WriteBackOne(s, b1, e1);
    WriteBackUntouched(before, blocks, errs, s.id);
    WriteBackUntouched(after, b2, e2, s.id);
  }

  // ---- the whole cache ------------------------------------------------------

  /** Everything reads the same from the disk alone as through the cache. */
  ghost predicate DiskIsCurrent(chains: seq<Chain>, blocks: Blocks)
    requires |chains| > 0
  {
    forall b :: OnDisk(blocks, b) == Logical(chains, blocks, b)
  }

  lemma CleanFind(chains: seq<Chain>, b: nat)
    requires |chains| > 0
    ensures var c := Hash(b, |chains|); Find(CleanAll(chains)[c], b) == Find(chains[c], b)
  {
    var c := Hash(b, |chains|);
    SameIdsSameFind(chains[c], CleanAll(chains)[c], b);
  }

  lemma UncachedUntouched(chains: seq<Chain>, blocks: Blocks, errs: nat, b: nat)
    requires WellHashed(chains)
    requires var ch := chains[Hash(b, |chains|)]; Find(ch, b) == |ch|
    ensures OnDisk(WriteBack(Flatten(chains), blocks, errs).0, b) == OnDisk(blocks, b)
  {
    var slots := Flatten(chains);
    forall n | 0 <= n < |slots|
      ensures slots[n].id != b
    {
      var c, i := FlattenFrom(chains, n);
    }
    WriteBackUntouched(slots, blocks, errs, b);
  }

  /** `sync_all` never changes what a reader sees, whatever writes fail. */
  lemma SyncKeepsLogical(chains: seq<Chain>, blocks: Blocks, errs: nat, b: nat)
    requires WellHashed(chains)
    ensures Logical(CleanAll(chains), WriteBack(Flatten(chains), blocks, errs).0, b) == Logical(chains, blocks, b)
  {
    CleanFind(chains, b);
    var ch := chains[Hash(b, |chains|)];
    if Find(ch, b) == |ch| {
      UncachedUntouched(chains, blocks, errs, b);
    }
  }

  lemma CleanHasNoDirty(slots: Chain)
    requires forall i :: 0 <= i < |slots| ==> !slots[i].modified
    ensures Dirty(slots) == 0
  {
  }

  /** After `sync_all` nothing is dirty. */
  lemma SyncCleans(chains: seq<Chain>)
    ensures Dirty(Flatten(CleanAll(chains))) == 0
  {
    var slots := Flatten(CleanAll(chains));
    forall n | 0 <= n < |slots|
      ensures !slots[n].modified
    {
      var c, i := FlattenFrom(CleanAll(chains), n);
    }
    CleanHasNoDirty(slots);
  }

  /** Nothing of the modified slots gets lost: a write that a fault swallows carries no
      change, and one that goes through carries a whole block, which the disk does not
      cut or pad. */
  ghost predicate NothingLost(chains: seq<Chain>, blocks: Blocks, errs: nat) {
    var slots := Flatten(chains);
    forall n :: 0 <= n < |slots| && slots[n].modified ==>
      if Lost(slots, n, errs) then slots[n].payload == OnDisk(blocks, slots[n].id) else |slots[n].payload| == BLOCK_SZ
  }

  lemma SlotAfterSync(chains: seq<Chain>, blocks: Blocks, errs: nat, n: nat)
    requires WellHashed(chains) && n < |Flatten(chains)|
    ensures var s := Flatten(chains)[n];
            var disk := OnDisk(WriteBack(Flatten(chains), blocks, errs).0, s.id);
            && Logical(chains, blocks, s.id) == s.payload
            && disk == if s.modified && !Lost(Flatten(chains), n, errs) then Fit(s.payload, BLOCK_SZ)
                       else OnDisk(blocks, s.id)
  {
    FlattenDistinct(chains, 0, |chains|);
    var c, i := FlattenFrom(chains, n);
    var s := chains[c][i];
    FindUnique(chains[c], s.id, i);
    WriteBackSlot(Flatten(chains), blocks, errs, n);
  }

  /** A slot that reads from the disk as from the cache after `sync_all`. */
  ghost predicate SlotCurrent(slots: Chain, n: nat, blocks: Blocks, errs: nat)
    requires n < |slots|
  {
    if slots[n].modified && !Lost(slots, n, errs) then |slots[n].payload| == BLOCK_SZ
    else slots[n].payload == OnDisk(blocks, slots[n].id)
  }

  lemma SlotCurrentIff(chains: seq<Chain>, blocks: Blocks, errs: nat, n: nat)
    requires WellHashed(chains) && n < |Flatten(chains)|
    ensures var b, blocks' := Flatten(chains)[n].id, WriteBack(Flatten(chains), blocks, errs).0;
            OnDisk(blocks', b) == Logical(CleanAll(chains), blocks', b)
            <==> SlotCurrent(Flatten(chains), n, blocks, errs)
  {
    SlotAfterSync(chains, blocks, errs, n);
    SyncKeepsLogical(chains, blocks, errs, Flatten(chains)[n].id);
  }

  ghost predicate AllCurrent(slots: Chain, blocks: Blocks, errs: nat) {
    forall n :: 0 <= n < |slots| ==> SlotCurrent(slots, n, blocks, errs)
  }

  lemma AllCurrentIff(chains: seq<Chain>, blocks: Blocks, errs: nat)
    ensures AllCurrent(Flatten(chains), blocks, errs)
            <==> CleanAgrees(chains, blocks) && NothingLost(chains, blocks, errs)
  {
    var slots := Flatten(chains);
    if AllCurrent(slots, blocks, errs) {
      forall c, i | 0 <= c < |chains| && 0 <= i < |chains[c]| && !chains[c][i].modified
        ensures chains[c][i].payload == OnDisk(blocks, chains[c][i].id)
      {
        var n := FlattenHolds(chains, c, i);
        assert SlotCurrent(slots, n, blocks, errs);
      }
      forall n | 0 <= n < |slots| && slots[n].modified
        ensures if Lost(slots, n, errs) then slots[n].payload == OnDisk(blocks, slots[n].id)
                else |slots[n].payload| == BLOCK_SZ
      {
        assert SlotCurrent(slots, n, blocks, errs);
      }
    }
    if CleanAgrees(chains, blocks) && NothingLost(chains, blocks, errs) {
      forall n | 0 <= n < |slots|
        ensures SlotCurrent(slots, n, blocks, errs)
      {
        var c, i := FlattenFrom(chains, n);
      }
    }
  }

  /** For every cache, disk and number of faults: `sync_all` makes the disk alone current
      exactly when the clean slots agreed with it and nothing of the modified ones is lost. */
  lemma SyncMakesDiskCurrentIff(chains: seq<Chain>, blocks: Blocks, errs: nat)
    requires WellHashed(chains)
    ensures DiskIsCurrent(CleanAll(chains), WriteBack(Flatten(chains), blocks, errs).0)
            <==> CleanAgrees(chains, blocks) && NothingLost(chains, blocks, errs)
  {
    var blocks' := WriteBack(Flatten(chains), blocks, errs).0;
    var slots := Flatten(chains);
    AllCurrentIff(chains, blocks, errs);
    if DiskIsCurrent(CleanAll(chains), blocks') {
      forall n | 0 <= n < |slots|
        ensures SlotCurrent(slots, n, blocks, errs)
      {
        SlotCurrentIff(chains, blocks, errs, n);
      }
    }
    if AllCurrent(slots, blocks, errs) {
      forall b
        ensures OnDisk(blocks', b) == Logical(CleanAll(chains), blocks', b)
      {
        CurrentBlock(chains, blocks, errs, b);
      }
    }
  }

  lemma CurrentBlock(chains: seq<Chain>, blocks: Blocks, errs: nat, b: nat)
    requires WellHashed(chains) && AllCurrent(Flatten(chains), blocks, errs)
    ensures var blocks' := WriteBack(Flatten(chains), blocks, errs).0;
            OnDisk(blocks', b) == Logical(CleanAll(chains), blocks', b)
  {
    var c := Hash(b, |chains|);
    if Find(chains[c], b) == |chains[c]| {
      UncachedUntouched(chains, blocks, errs, b);
      SyncKeepsLogical(chains, blocks, errs, b);
    } else {
      var n := FlattenHolds(chains, c, Find(chains[c], b));
      SlotCurrentIff(chains, blocks, errs, n);
      assert SlotCurrent(Flatten(chains), n, blocks, errs);
    }
  }

  /** Without faults, whole blocks are never lost. */
  lemma FullBlocksNotLost(chains: seq<Chain>, blocks: Blocks)
    requires FullBlocks(chains)
    ensures NothingLost(chains, blocks, 0)
  {
    var slots := Flatten(chains);
    forall n | 0 <= n < |slots|
      ensures |slots[n].payload| == BLOCK_SZ
    {
      var c, i := FlattenFrom(chains, n);
    }
  }
}
