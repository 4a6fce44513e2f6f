/** The simulated disk and the hashed write-back block cache in front of it. */
module BlockCache {
  import opened Common
  import opened Bits

  type Data = seq<byte>

  // ---- disk -----------------------------------------------------------------

  /** The first `n` bytes of `d`, padded with zeros. */
  function Fit(d: Data, n: nat): (r: Data)
    ensures |r| == n
    ensures |d| == n ==> r == d
  {
    if |d| >= n then d[..n] else d + seq(n - |d|, i => 0)
  }

  /** What an unwritten block reads as. */
  function Blank(n: nat): (r: Data)
    ensures |r| == n
  {
    seq(n, i => 0xAA)
  }

  type Blocks = map<nat, Data>

  function OnDisk(blocks: Blocks, k: nat): Data {
    if k in blocks then Fit(blocks[k], BLOCK_SZ) else Blank(BLOCK_SZ)
  }

  /** One consumed fault; `usize::MAX` stands for a permanent fault. */
  function Consume(errs: nat): nat {
    if errs == 0 || errs >= USIZE_MAX then errs else errs - 1
  }

  class Disk {
    var blocks: Blocks
    var errs: nat
    var ops: nat

    constructor (errs: nat)
      ensures blocks == map[] && this.errs == errs && ops == 0
    {
      blocks, this.errs, ops := map[], errs, 0;
    }

    /** Inject `n` faults from now on; 0 ends them. */
    method SetErrs(n: nat)
      modifies this`errs
      ensures errs == n
    {
      errs := n;
    }

    /** Retries until the injected faults are used up; a permanent fault would spin forever. */
    method ReadBlock(k: nat, len: nat) returns (out: Data)
      requires errs < USIZE_MAX
      modifies this`errs, this`ops
      ensures errs == 0 && ops == old(ops) + old(errs) + 1
      ensures out == if k in blocks then Fit(blocks[k], len) else Blank(len)
      ensures |out| == len && forall i :: 0 <= i < len ==>
                out[i] == if k !in blocks then 0xAA else if i < |blocks[k]| then blocks[k][i] else 0
    {
      while true
        invariant errs <= old(errs)
        invariant ops + errs == old(ops) + old(errs)
        decreases errs
      {
        ops := ops + 1;
        if errs == 0 {
          if k in blocks {
            return Fit(blocks[k], len);
          } else {
            return Blank(len);
          }
        }
        errs := errs - 1;
      }
    }

    method WriteBlock(k: nat, data: Data) returns (ok: bool)
      modifies this
      ensures ok <==> old(errs) == 0
      ensures blocks == if ok then old(blocks)[k := Fit(data, BLOCK_SZ)] else old(blocks)
      ensures ok ==> |blocks[k]| == BLOCK_SZ
                     && forall i :: 0 <= i < BLOCK_SZ ==> blocks[k][i] == if i < |data| then data[i] else 0
      ensures errs == Consume(old(errs)) && ops == old(ops) + 1
    {
      ops := ops + 1;
      if errs != 0 {
        if errs < USIZE_MAX {
          errs := errs - 1;
        }
        return false;
      }
      blocks := blocks[k := Fit(data, BLOCK_SZ)];
      return true;
    }
  }

  // ---- cache: values --------------------------------------------------------

  datatype Slot = Slot(id: nat, payload: Data, modified: bool)

  type Chain = seq<Slot>

  /** `(k ^ (k >> 7)) % width`. */
  function Hash(k: nat, width: nat): (c: nat)
    requires width > 0
    ensures c < width
  {
    Xor(k, Shr(k, 7)) % width
  }

  /** Position of the first slot for block `k`, or the length. */
  function Find(ch: Chain, k: nat): (i: nat)
    ensures i <= |ch|
    ensures i < |ch| ==> ch[i].id == k
    ensures forall j :: 0 <= j < i ==> ch[j].id != k
  {
    if ch == [] || ch[0].id == k then 0 else 1 + Find(ch[1..], k)
  }

  /** The content of block `k` as a reader of the stack sees it: cached copy first. */
  function Logical(chains: seq<Chain>, blocks: Blocks, k: nat): Data
    requires |chains| > 0
  {
    var ch := chains[Hash(k, |chains|)];
    var i := Find(ch, k);
    if i < |ch| then ch[i].payload else OnDisk(blocks, k)
  }

  /** Every slot sits in the chain its hash picks, and no block is cached twice. */
  ghost predicate WellHashed(chains: seq<Chain>) {
    && |chains| > 0
    && (forall c, i :: 0 <= c < |chains| && 0 <= i < |chains[c]| ==> Hash(chains[c][i].id, |chains|) == c)
    && (forall c, i, j :: 0 <= c < |chains| && 0 <= i < j < |chains[c]| ==> chains[c][i].id != chains[c][j].id)
  }

  /** A slot not marked modified agrees with the disk. */
  ghost predicate CleanAgrees(chains: seq<Chain>, blocks: Blocks) {
    forall c, i :: 0 <= c < |chains| && 0 <= i < |chains[c]| && !chains[c][i].modified
      ==> chains[c][i].payload == OnDisk(blocks, chains[c][i].id)
  }

  ghost predicate FullBlocks(chains: seq<Chain>) {
    forall c, i :: 0 <= c < |chains| && 0 <= i < |chains[c]| ==> |chains[c][i].payload| == BLOCK_SZ
  }

  predicate Cached(chains: seq<Chain>, k: nat)
    requires |chains| > 0
  {
    var ch := chains[Hash(k, |chains|)];
    Find(ch, k) < |ch|
  }

  /** A miss appends an unmodified copy of the disk block to its chain. */
  function FetchSpec(chains: seq<Chain>, blocks: Blocks, k: nat): (r: seq<Chain>)
    requires |chains| > 0
    ensures |r| == |chains|
  {
    var c := Hash(k, |chains|);
    if Cached(chains, k) then chains else chains[c := chains[c] + [Slot(k, OnDisk(blocks, k), false)]]
  }

  function PutSpec(chains: seq<Chain>, k: nat, data: Data): (r: seq<Chain>)
    requires |chains| > 0
    ensures |r| == |chains|
  {
    var c := Hash(k, |chains|);
    chains[c := PutInChain(chains[c], k, data)]
  }

  function PutInChain(ch: Chain, k: nat, data: Data): Chain {
    var i := Find(ch, k);
    if i < |ch| then ch[i := Slot(k, data, true)] else ch + [Slot(k, data, true)]
  }

  // ---- sync: one pass over the slots of the chains, in order ----------------

  function Clean(s: Slot): Slot {
    s.(modified := false)
  }

  function CleanChain(ch: Chain): (r: Chain)
    ensures |r| == |ch|
    ensures forall i :: 0 <= i < |r| ==> r[i] == Clean(ch[i])
  {
    seq(|ch|, i requires 0 <= i < |ch| => Clean(ch[i]))
  }

  /** Blocks and remaining faults after writing back the modified slots in order. */
  function WriteBack(slots: Chain, blocks: Blocks, errs: nat): (Blocks, nat) {
    if slots == [] then (blocks, errs)
    else
      var s := slots[0];
      if !s.modified then WriteBack(slots[1..], blocks, errs)
      else if errs == 0 then WriteBack(slots[1..], blocks[s.id := Fit(s.payload, BLOCK_SZ)], errs)
      else WriteBack(slots[1..], blocks, Consume(errs))
  }

  function Flatten(chains: seq<Chain>): Chain {
    if chains == [] then [] else chains[0] + Flatten(chains[1..])
  }

  /** Modified slots. */
  function Dirty(slots: Chain): nat {
    if slots == [] then 0 else Dirty(slots[..|slots| - 1]) + (if slots[|slots| - 1].modified then 1 else 0)
  }

  lemma WriteBackConcat(a: Chain, b: Chain, blocks: Blocks, errs: nat)
    ensures var (blocks', errs') := WriteBack(a, blocks, errs);
            WriteBack(a + b, blocks, errs) == WriteBack(b, blocks', errs')
  {
    if a == [] {
      assert a + b == b;
    } else {
      assert (a + b)[1..] == a[1..] + b;
    }
  }

  lemma {:induction false} FlattenSnoc(chains: seq<Chain>, n: nat)
    requires n < |chains|
    ensures Flatten(chains[..n + 1]) == Flatten(chains[..n]) + chains[n]
  {
    if n == 0 {
      assert chains[..1][1..] == [];
      assert chains[..0] == [];
    } else {
      FlattenSnoc(chains[1..], n - 1);
      assert chains[..n + 1][1..] == chains[1..][..n];
      assert chains[..n][1..] == chains[1..][..n - 1];
    }
  }

  lemma DirtyConcat(a: Chain, b: Chain)
    ensures Dirty(a + b) == Dirty(a) + Dirty(b)
  {
    if b == [] {
      assert a + b == a;
    } else {
      assert (a + b)[..|a + b| - 1] == a + b[..|b| - 1];
    }
  }

  // ---- cache: the object ----------------------------------------------------

  class Cache {
    var chains: seq<Chain>
    const width: nat

    ghost predicate Valid()
      reads this
    {
      |chains| == width && WellHashed(chains)
    }

    constructor (w: nat)
      requires w > 0
      ensures Valid() && width == w && chains == seq(w, i => [])
    {
      chains := seq(w, i => []);
      width := w;
    }

    /** The scan of one chain. */
    static method Search(ch: Chain, k: nat) returns (i: nat)
      ensures i == Find(ch, k)
    {
      i := 0;
      while i < |ch|
        invariant 0 <= i <= |ch|
        invariant forall j :: 0 <= j < i ==> ch[j].id != k
      {
        if ch[i].id == k {
          break;
        }
        i := i + 1;
      }
      FindUnique(ch, k, i);
    }

    /** Serve block `k` from its chain, or read it from the disk into the chain. */
    method FetchSlot(k: nat, disk: Disk) returns (data: Data)
      requires |chains| == width > 0 && (Cached(chains, k) || disk.errs < USIZE_MAX)
      modifies this`chains, disk`errs, disk`ops
      ensures chains == FetchSpec(old(chains), disk.blocks, k)
      ensures disk.errs == if Cached(old(chains), k) then old(disk.errs) else 0
      ensures data == Logical(old(chains), disk.blocks, k)
    {
      var ci := Hash(k, width);
      var ch := chains[ci];
      var i := Search(ch, k);
      if i < |ch| {
        return ch[i].payload;
      }
      data := disk.ReadBlock(k, BLOCK_SZ);
      chains := chains[ci := ch + [Slot(k, data, false)]];
    }

    method Fetch(k: nat, disk: Disk) returns (data: Data)
      requires Valid() && (Cached(chains, k) || disk.errs < USIZE_MAX)
      modifies this`chains, disk`errs, disk`ops
      ensures Valid() && disk.errs <= old(disk.errs)
      ensures chains == FetchSpec(old(chains), disk.blocks, k)
      ensures disk.errs == if Cached(old(chains), k) then old(disk.errs) else 0
      ensures data == Logical(old(chains), disk.blocks, k)
      ensures forall b :: Logical(chains, disk.blocks, b) == Logical(old(chains), disk.blocks, b)
      ensures CleanAgrees(old(chains), disk.blocks) ==> CleanAgrees(chains, disk.blocks)
      ensures FullBlocks(old(chains)) ==> FullBlocks(chains)
      ensures Dirty(Flatten(chains)) == Dirty(Flatten(old(chains)))
    {
      ghost var was := chains;
      data := FetchSlot(k, disk);
      assert chains == FetchSpec(was, disk.blocks, k);
      FetchEffects(was, disk.blocks, k);
    }

    method Put(k: nat, data: Data)
      requires Valid()
      modifies this`chains
      ensures Valid()
      ensures chains == PutSpec(old(chains), k, data)
    {
      PutWellHashed(chains, k, data);
      var ci := Hash(k, width);
      var ch := chains[ci];
      var i := Search(ch, k);
      if i < |ch| {
        chains := chains[ci := ch[i := Slot(k, data, true)]];
      } else {
        chains := chains[ci := ch + [Slot(k, data, true)]];
      }
    }

    method SyncAll(disk: Disk)
      requires Valid()
      modifies this`chains, disk
      ensures Valid()
      ensures |chains| == |old(chains)|
      ensures forall c :: 0 <= c < |chains| ==> chains[c] == CleanChain(old(chains)[c])
      ensures (disk.blocks, disk.errs) == WriteBack(Flatten(old(chains)), old(disk.blocks), old(disk.errs))
    {
      ghost var start := chains;
      for c := 0 to |chains|
        invariant |chains| == |start|
        invariant forall d :: c <= d < |start| ==> chains[d] == start[d]
        invariant forall d :: 0 <= d < c ==> chains[d] == CleanChain(start[d])
        invariant (disk.blocks, disk.errs) == WriteBack(Flatten(start[..c]), old(disk.blocks), old(disk.errs))
      {
        FlattenSnoc(start, c);
        WriteBackConcat(Flatten(start[..c]), start[c], old(disk.blocks), old(disk.errs));
        var ch := SyncChain(chains[c], disk);
        chains := chains[c := ch];
      }
      assert start[..|start|] == start;
    }

    static method SyncChain(items: Chain, disk: Disk) returns (ch: Chain)
      modifies disk
      ensures ch == CleanChain(items)
      ensures (disk.blocks, disk.errs) == WriteBack(items, old(disk.blocks), old(disk.errs))
    {
      ch := items;
      for i := 0 to |ch|
        invariant |ch| == |items|
        invariant forall j :: 0 <= j < i ==> ch[j] == Clean(items[j])
        invariant forall j :: i <= j < |ch| ==> ch[j] == items[j]
        invariant (disk.blocks, disk.errs) == WriteBack(items[..i], old(disk.blocks), old(disk.errs))
      {
        WriteBackConcat(items[..i], [items[i]], old(disk.blocks), old(disk.errs));
        assert items[..i + 1] == items[..i] + [items[i]];
        WriteBackOne(items[i], disk.blocks, disk.errs);
        if ch[i].modified {
          var _ := disk.WriteBlock(ch[i].id, ch[i].payload);
        }
        ch := ch[i := Clean(ch[i])];
      }
      assert items[..|items|] == items;
    }

    method DirtyCount() returns (count: nat)
      ensures count == Dirty(Flatten(chains))
    {
      count := 0;
      for c := 0 to |chains|
        invariant count == Dirty(Flatten(chains[..c]))
      {
        var ch := chains[c];
        ghost var before := count;
        for i := 0 to |ch|
          invariant count == before + Dirty(ch[..i])
        {
          assert ch[..i + 1][..i] == ch[..i];
          if ch[i].modified {
            count := count + 1;
          }
        }
        assert ch[..|ch|] == ch;
        FlattenSnoc(chains, c);
        DirtyConcat(Flatten(chains[..c]), ch);
      }
      assert chains[..|chains|] == chains;
    }
  }

  lemma WriteBackOne(s: Slot, blocks: Blocks, errs: nat)
    ensures WriteBack([s], blocks, errs)
         == if !s.modified then (blocks, errs)
            else if errs == 0 then (blocks[s.id := Fit(s.payload, BLOCK_SZ)], errs)
            else (blocks, Consume(errs))
  {
    assert [s][1..] == [];
  }

  // ---- what the operations mean for the logical view ------------------------

  lemma FindUnique(ch: Chain, k: nat, i: nat)
    requires i <= |ch| && (i < |ch| ==> ch[i].id == k) && forall j :: 0 <= j < i ==> ch[j].id != k
    ensures Find(ch, k) == i
  {
    var f := Find(ch, k);
  }

  lemma FindAppend(ch: Chain, s: Slot, k: nat)
    ensures Find(ch + [s], k) == if Find(ch, k) < |ch| then Find(ch, k) else if s.id == k then |ch| else |ch| + 1
  {
    FindUnique(ch + [s], k, if Find(ch, k) < |ch| then Find(ch, k) else if s.id == k then |ch| else |ch| + 1);
  }

  /** Caching what the disk holds changes no block's content. */
  lemma FetchKeepsLogical(chains: seq<Chain>, blocks: Blocks, k: nat, b: nat)
    requires |chains| > 0
    ensures Logical(FetchSpec(chains, blocks, k), blocks, b) == Logical(chains, blocks, b)
  {
    if !Cached(chains, k) {
      FindAppend(chains[Hash(k, |chains|)], Slot(k, OnDisk(blocks, k), false), b);
    }
  }

  lemma FetchWellHashed(chains: seq<Chain>, blocks: Blocks, k: nat)
    requires WellHashed(chains)
    ensures WellHashed(FetchSpec(chains, blocks, k))
  {
  }

  lemma FetchCleanAgrees(chains: seq<Chain>, blocks: Blocks, k: nat)
    requires |chains| > 0 && CleanAgrees(chains, blocks)
    ensures CleanAgrees(FetchSpec(chains, blocks, k), blocks)
  {
  }

  lemma FetchFullBlocks(chains: seq<Chain>, blocks: Blocks, k: nat)
    requires |chains| > 0 && FullBlocks(chains)
    ensures FullBlocks(FetchSpec(chains, blocks, k))
  {
  }

  lemma FetchDirty(chains: seq<Chain>, blocks: Blocks, k: nat)
    requires |chains| > 0
    ensures Dirty(Flatten(FetchSpec(chains, blocks, k))) == Dirty(Flatten(chains))
  {
    if !Cached(chains, k) {
      AppendDirty(chains, Hash(k, |chains|), Slot(k, OnDisk(blocks, k), false));
    }
  }

  /** After a fetch the block is cached, and no other block is that was not. */
  lemma FetchCaches(chains: seq<Chain>, blocks: Blocks, k: nat, b: nat)
    requires |chains| > 0
    ensures Cached(FetchSpec(chains, blocks, k), b) <==> Cached(chains, b) || b == k
  {
    var c := Hash(k, |chains|);
    FindAppend(chains[c], Slot(k, OnDisk(blocks, k), false), b);
  }

  /** The chain of a block: its number with its bits from the eighth up folded into it, which
      is the number itself below 128. */
  lemma HashIs(k: nat, width: nat)
    requires width > 0
    ensures Hash(k, width) == Xor(k, k / 128) % width
    ensures k < 128 ==> Hash(k, width) == k % width
    ensures Hash(128, width) == 129 % width
  {
    assert Pow2(4) == 16 && Pow2(7) == 128;
    ShrDivides(k, 7);
    ShrDivides(128, 7);
    if k < 128 { XorZero(k); }
    XorOneHundredTwentyEight();
  }

  lemma XorOneHundredTwentyEight()
    ensures Xor(128, 1) == 129
  {
    XorPow2(128, 0);
  }

  /** A fetch keeps every invariant of the cache and every block's content. */
  lemma FetchEffects(chains: seq<Chain>, blocks: Blocks, k: nat)
    requires WellHashed(chains)
    ensures WellHashed(FetchSpec(chains, blocks, k))
    ensures forall b :: Logical(FetchSpec(chains, blocks, k), blocks, b) == Logical(chains, blocks, b)
    ensures CleanAgrees(chains, blocks) ==> CleanAgrees(FetchSpec(chains, blocks, k), blocks)
    ensures FullBlocks(chains) ==> FullBlocks(FetchSpec(chains, blocks, k))
    ensures Dirty(Flatten(FetchSpec(chains, blocks, k))) == Dirty(Flatten(chains))
  {
    FetchWellHashed(chains, blocks, k);
    forall b
      ensures Logical(FetchSpec(chains, blocks, k), blocks, b) == Logical(chains, blocks, b)
    {
      FetchKeepsLogical(chains, blocks, k, b);
    }
    if CleanAgrees(chains, blocks) { FetchCleanAgrees(chains, blocks, k); }
    if FullBlocks(chains) { FetchFullBlocks(chains, blocks, k); }
    FetchDirty(chains, blocks, k);
  }

  lemma {:induction false} AppendDirty(chains: seq<Chain>, c: nat, s: Slot)
    requires c < |chains| && !s.modified
    ensures Dirty(Flatten(chains[c := chains[c] + [s]])) == Dirty(Flatten(chains))
  {
    var chains' := chains[c := chains[c] + [s]];
    if c == 0 {
      DirtyConcat(chains[0], [s]);
      DirtyConcat(chains[0] + [s], Flatten(chains[1..]));
      DirtyConcat(chains[0], Flatten(chains[1..]));
      assert chains'[1..] == chains[1..];
      assert [s][..0] == [];
    } else {
      AppendDirty(chains[1..], c - 1, s);
      assert chains'[1..] == chains[1..][c - 1 := chains[c] + [s]];
      DirtyConcat(chains[0], Flatten(chains[1..]));
      DirtyConcat(chains[0], Flatten(chains'[1..]));
    }
  }

  lemma PutWellHashed(chains: seq<Chain>, k: nat, data: Data)
    requires WellHashed(chains)
    ensures WellHashed(PutSpec(chains, k, data))
  {
    var ch := chains[Hash(k, |chains|)];
    var i := Find(ch, k);
    var ch' := PutInChain(ch, k, data);
    assert forall j :: 0 <= j < |ch| ==> ch'[j].id == ch[j].id;
  }

  lemma FindPut(ch: Chain, k: nat, data: Data, b: nat)
    ensures Find(PutInChain(ch, k, data), b) == if b == k then Find(ch, b)
              else if Find(ch, b) < |ch| then Find(ch, b) else |PutInChain(ch, k, data)|
  {
    if Find(ch, k) == |ch| {
      FindAppend(ch, Slot(k, data, true), b);
    } else {
      SameIdsSameFind(ch, PutInChain(ch, k, data), b);
    }
  }

  /** A put changes the content of its own block and of no other. */
  lemma PutLogical(chains: seq<Chain>, blocks: Blocks, k: nat, data: Data)
    requires |chains| > 0
    ensures forall b ::
              Logical(PutSpec(chains, k, data), blocks, b) == if b == k then data else Logical(chains, blocks, b)
  {
    forall b
      ensures Logical(PutSpec(chains, k, data), blocks, b) == if b == k then data else Logical(chains, blocks, b)
    {
      FindPut(chains[Hash(k, |chains|)], k, data, b);
    }
  }

  lemma SameIdsSameFind(ch: Chain, ch': Chain, k: nat)
    requires |ch| == |ch'| && forall i :: 0 <= i < |ch| ==> ch[i].id == ch'[i].id
    ensures Find(ch, k) == Find(ch', k)
  {
    FindUnique(ch', k, Find(ch, k));
  }

  lemma PutCleanAgrees(chains: seq<Chain>, blocks: Blocks, k: nat, data: Data)
    requires |chains| > 0 && CleanAgrees(chains, blocks)
    ensures CleanAgrees(PutSpec(chains, k, data), blocks)
  {
  }

  lemma PutFullBlocks(chains: seq<Chain>, k: nat, data: Data)
    requires |chains| > 0 && FullBlocks(chains) && |data| == BLOCK_SZ
    ensures FullBlocks(PutSpec(chains, k, data))
  {
  }
}
