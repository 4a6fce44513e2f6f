/** Whole runs of the file stack: the imperative stack computes the abstract run, and
    the abstract run behaves as independent byte files. */
module FileRuns {
  import opened Common
  import opened BlockCache
  import opened Files
  import opened SimpleFS

  /** Executes any sequence of calls on the stack and agrees with the abstract run,
      state and outcomes, with synchronisation and finite disk faults injected anywhere. */
  method Execute(fs: FileSystem, cache: Cache, disk: Disk, ops: seq<Op>) returns (outs: seq<Outcome>)
    requires fs.Valid(cache, disk) && DefinedRun(fs.Abs(cache, disk), ops)
    modifies fs, cache, disk
    ensures fs.Valid(cache, disk)
    ensures (fs.Abs(cache, disk), outs) == Run(old(fs.Abs(cache, disk)), ops)
  {
    ghost var a := fs.Abs(cache, disk);
    outs := [];
    for i := 0 to |ops|
      invariant fs.Valid(cache, disk)
      invariant (fs.Abs(cache, disk), outs) == Run(a, ops[..i])
      invariant DefinedRun(a, ops)
    {
      DefinedPrefix(a, ops, i + 1);
      assert ops[..i + 1][..i] == ops[..i];
      var out := Call(fs, cache, disk, ops[i]);
      outs := outs + [out];
    }
    assert ops[..|ops|] == ops;
  }

  method Call(fs: FileSystem, cache: Cache, disk: Disk, op: Op) returns (out: Outcome)
    requires fs.Valid(cache, disk) && Defined(fs.Abs(cache, disk), op)
    modifies fs, cache, disk
    ensures fs.Valid(cache, disk)
    ensures (fs.Abs(cache, disk), out) == Step(old(fs.Abs(cache, disk)), op)
  {
    match op
    case CreateFile(dir, name) =>
      var r := fs.CreateFile(dir, name, cache, disk);
      out := if r.Ok? then Inode(r.value) else Failed(r.error);
    case CreateDir(dir, name) =>
      var r := fs.CreateDir(dir, name, cache, disk);
      out := if r.Ok? then Inode(r.value) else Failed(r.error);
    case Unlink(dir, name) =>
      var r := fs.Unlink(dir, name, cache, disk);
      out := if r.Ok? then Done else Failed(r.error);
    case Read(ino, off, maxLen) =>
      var r := fs.ReadData(ino, off, maxLen, cache, disk);
      out := if r.Ok? then Bytes(r.value) else Failed(r.error);
    case Write(ino, off, buf) =>
      var r := fs.WriteData(ino, off, buf, cache, disk);
      out := if r.Ok? then Count(r.value) else Failed(r.error);
    case Truncate(ino, size) =>
      var r := fs.Truncate(ino, size, cache, disk);
      out := if r.Ok? then Done else Failed(r.error);
    case Sync =>
      fs.Sync(cache, disk);
      out := Done;
    case Inject(n) =>
      disk.SetErrs(n);
      out := Done;
  }

  lemma {:induction false} DefinedPrefix(a: AFS, ops: seq<Op>, n: nat)
    requires DefinedRun(a, ops) && n <= |ops|
    ensures DefinedRun(a, ops[..n])
  {
    if n < |ops| {
      DefinedPrefix(a, ops[..|ops| - 1], n);
      assert ops[..|ops| - 1][..n] == ops[..n];
    } else {
      assert ops[..n] == ops;
    }
  }

  /** A new file system over a new cache and disk is valid and empty, so the refinement
      above covers every run from start-up. */
  method Boot(width: nat, faults: nat) returns (fs: FileSystem, cache: Cache, disk: Disk)
    requires width > 0 && faults < USIZE_MAX
    ensures fresh(fs) && fresh(cache) && fresh(disk)
    ensures fs.Valid(cache, disk) && fs.Abs(cache, disk) == EMPTY
  {
    disk := new Disk(faults);
    cache := new Cache(width);
    fs := new FileSystem();
    ghost var v := ViewOf(cache.chains, disk.blocks);
    assert forall b :: v(b) == Blank(BLOCK_SZ);
    assert Extent([], v) == [];
  }

  // ---- files behave independently -------------------------------------------

  /** `op` may change file `ino`: only its own data calls, a create or unlink in it as a
      directory, and the unlink of its entry. */
  predicate Touches(a: AFS, op: Op, ino: nat) {
    match op
    case CreateFile(dir, _) => dir == ino || a.nextIno == ino
    case CreateDir(dir, _) => dir == ino || a.nextIno == ino
    case Unlink(dir, name) =>
      dir == ino || (dir in a.files && name in a.files[dir].children && a.files[dir].children[name] == ino)
    case Write(n, _, _) => n == ino
    case Truncate(n, _) => n == ino
    case Read(_, _, _) => false
    case Sync => false
    case Inject(_) => false
  }

  predicate RunTouches(a: AFS, ops: seq<Op>, ino: nat) {
    ops != [] && (RunTouches(a, ops[..|ops| - 1], ino) || Touches(Run(a, ops[..|ops| - 1]).0, ops[|ops| - 1], ino))
  }

  /** Over any run, a file no call touches keeps every byte and its size. */
  lemma {:induction false} UntouchedFileUnchanged(a: AFS, ops: seq<Op>, ino: nat)
    requires ino in a.files && !RunTouches(a, ops, ino)
    ensures ino in Run(a, ops).0.files && Run(a, ops).0.files[ino] == a.files[ino]
  {
    if ops != [] {
      UntouchedFileUnchanged(a, ops[..|ops| - 1], ino);
    }
  }

  /** A read after a write, with any calls in between that do not touch the file:
      written bytes where written, elsewhere the bytes of the old blocks, and AA past those. */
  lemma ReadSeesWrite(a: AFS, ino: nat, off: nat, buf: Data, between: seq<Op>, pos: nat, maxLen: nat)
    requires ino in a.files && a.files[ino].kind == File && buf != []
    requires |a.files[ino].extent| >= a.files[ino].size
    requires maxLen > 0 && pos < Max(a.files[ino].size, off + |buf|)
    requires !RunTouches(Step(a, Write(ino, off, buf)).0, between, ino)
    ensures var f := a.files[ino];
            var b := Run(Step(a, Write(ino, off, buf)).0, between).0;
            var out := Step(b, Read(ino, pos, maxLen)).1;
            && out.Bytes? && |out.data| == Min(maxLen, Max(f.size, off + |buf|) - pos)
            && (forall i :: 0 <= i < |out.data| && off <= pos + i < off + |buf| ==> out.data[i] == buf[pos + i - off])
            && (forall i :: 0 <= i < |out.data| && !(off <= pos + i < off + |buf|)
                  ==> out.data[i] == if pos + i < |f.extent| then f.extent[pos + i] else 0xAA)
  {
    var a1 := Step(a, Write(ino, off, buf)).0;
    UntouchedFileUnchanged(a1, between, ino);
    WrittenBytes(a.files[ino], off, buf, pos, maxLen);
    var b := Run(a1, between).0;
    assert b.files[ino] == Written(a.files[ino], off, buf);
    assert Step(b, Read(ino, pos, maxLen)).1 == Bytes(ReadBytes(b.files[ino], pos, maxLen));
  }

  /** What one read of a written file returns. */
  lemma WrittenBytes(f: AFile, off: nat, buf: Data, pos: nat, maxLen: nat)
    requires |f.extent| >= f.size && pos < Max(f.size, off + |buf|)
    ensures var data := ReadBytes(Written(f, off, buf), pos, maxLen);
            && |data| == Min(maxLen, Max(f.size, off + |buf|) - pos)
            && (forall i :: 0 <= i < |data| && off <= pos + i < off + |buf| ==> data[i] == buf[pos + i - off])
            && (forall i :: 0 <= i < |data| && !(off <= pos + i < off + |buf|)
                  ==> data[i] == if pos + i < |f.extent| then f.extent[pos + i] else 0xAA)
  {
    var grown := Grown(f.extent, BlocksFor(off + |buf|));
    var g := Written(f, off, buf);
    assert g.extent == Overwrite(grown, off, buf) && |g.extent| >= g.size;
    var data := ReadBytes(g, pos, maxLen);
    assert forall i :: 0 <= i < |data| ==> data[i] == g.extent[pos + i];
    assert forall i :: 0 <= i < |grown| ==> grown[i] == if i < |f.extent| then f.extent[i] else 0xAA;
  }

  /** A truncate to no more than the blocks hold keeps exactly the bytes below the new size. */
  lemma ReadAfterTruncate(a: AFS, ino: nat, size: nat, between: seq<Op>, pos: nat, maxLen: nat)
    requires ino in a.files && a.files[ino].kind == File
    requires size <= |a.files[ino].extent|
    requires !RunTouches(Step(a, Truncate(ino, size)).0, between, ino)
    ensures var f := a.files[ino];
            var b := Run(Step(a, Truncate(ino, size)).0, between).0;
            Step(b, Read(ino, pos, maxLen)).1 == Bytes(Slice(f.extent[..size], pos, pos + maxLen))
  {
    var a1 := Step(a, Truncate(ino, size)).0;
    UntouchedFileUnchanged(a1, between, ino);
    TruncatedBytes(a.files[ino], size, pos, maxLen);
    var b := Run(a1, between).0;
    assert b.files[ino] == Truncated(a.files[ino], size);
  }

  lemma PrefixSlice(e: Data, n: nat, lo: nat, hi: nat)
    requires lo <= hi <= n <= |e|
    ensures e[..n][lo..hi] == e[lo..hi]
  {
  }

  /** What one read of a truncated file returns. */
  lemma TruncatedBytes(f: AFile, size: nat, pos: nat, maxLen: nat)
    requires size <= |f.extent|
    ensures ReadBytes(Truncated(f, size), pos, maxLen) == Slice(f.extent[..size], pos, pos + maxLen)
  {
    var kept := Min(|f.extent|, BlocksFor(size) * BLOCK_SZ);
    assert size <= kept;
    var stop := Min(pos + maxLen, size);
    if pos < stop {
      PrefixSlice(f.extent, kept, pos, stop);
      PrefixSlice(f.extent, size, pos, stop);
    }
  }

  ghost predicate SizesCovered(a: AFS) {
    forall n :: n in a.files ==> a.files[n].size <= |a.files[n].extent|
  }

  /** A file can be read in full exactly when its blocks cover its size. */
  lemma ReadsInFullIff(a: AFS, ino: nat)
    requires ino in a.files && a.files[ino].kind == File
    ensures var size := a.files[ino].size;
            var out := Step(a, Read(ino, 0, size)).1;
            out.Bytes? && (|out.data| == size <==> size <= |a.files[ino].extent|)
  {
    var f := a.files[ino];
    assert |Slice(f.extent, 0, f.size)| == Min(f.size, |f.extent|);
  }

  /** A truncate to more bytes than the file's blocks hold. */
  predicate Overgrows(a: AFS, op: Op) {
    op.Truncate? && op.ino in a.files && op.size > |a.files[op.ino].extent|
  }

  predicate RunOvergrows(a: AFS, ops: seq<Op>) {
    ops != [] && (RunOvergrows(a, ops[..|ops| - 1]) || Overgrows(Run(a, ops[..|ops| - 1]).0, ops[|ops| - 1]))
  }

  /** Sizes covered after every step. */
  ghost predicate AlwaysCovered(a: AFS, ops: seq<Op>) {
    SizesCovered(Run(a, ops).0) && (ops == [] || AlwaysCovered(a, ops[..|ops| - 1]))
  }

  /** Sizes stay covered throughout a run if and only if no truncate overgrows a file. */
  lemma {:induction false} CoveredIffNeverOvergrown(a: AFS, ops: seq<Op>)
    requires SizesCovered(a)
    ensures AlwaysCovered(a, ops) <==> !RunOvergrows(a, ops)
  {
    if ops != [] {
      CoveredIffNeverOvergrown(a, ops[..|ops| - 1]);
      if AlwaysCovered(a, ops[..|ops| - 1]) {
        StepCoveredIff(Run(a, ops[..|ops| - 1]).0, ops[|ops| - 1]);
      }
    }
  }

  lemma StepCoveredIff(a: AFS, op: Op)
    requires SizesCovered(a)
    ensures SizesCovered(Step(a, op).0) <==> !Overgrows(a, op)
  {
    if op.Truncate? && op.ino in a.files {
      var f, b := a.files[op.ino], Step(a, op).0;
      assert BlocksFor(op.size) * BLOCK_SZ >= op.size;
      assert b.files[op.ino].size == op.size
             && |b.files[op.ino].extent| == Min(|f.extent|, BlocksFor(op.size) * BLOCK_SZ);
    }
  }

  /** The condition is needed: a truncate can make a file read shorter than its size. */
  lemma GrowingTruncateReadsShort()
    ensures var ops := [CreateFile(0, "f"), Truncate(1, 10)];
            var a := Run(EMPTY, ops).0;
            && DefinedRun(EMPTY, ops) && a.files[1].size == 10
            && Step(a, Read(1, 0, 10)).1 == Bytes([])
  {
    var ops := [CreateFile(0, "f"), Truncate(1, 10)];
    assert ops[..1] == [CreateFile(0, "f")];
    assert ops[..1][..0] == [];
    var a1 := Step(EMPTY, CreateFile(0, "f")).0;
    assert Run(EMPTY, ops[..1]).0 == a1;
    assert a1.files[1] == NewInode(File);
    assert DefinedRun(EMPTY, ops[..1][..0]);
    assert DefinedRun(EMPTY, ops[..1]);
  }
}
