/** The abstract file system: files as byte sequences with a size, directories as maps, and
    the outcome of every call on them. */
module Files {
  import opened Common
  import opened BlockCache

  datatype Kind = File | Directory

  /** A file as a caller sees it: the bytes of its allocated blocks, its size, its entries. */
  datatype AFile = AFile(kind: Kind, extent: Data, size: nat, children: map<string, nat>)

  datatype AFS = AFS(files: map<nat, AFile>, nextIno: nat)

  function NewInode(kind: Kind): AFile {
    AFile(kind, [], 0, map[])
  }

  const EMPTY: AFS := AFS(map[0 := NewInode(Directory)], 1)

  // ---- data -----------------------------------------------------------------

  /** Blocks needed to hold `bytes` bytes. */
  function BlocksFor(bytes: nat): nat {
    (bytes + BLOCK_SZ - 1) / BLOCK_SZ
  }

  /** Grow an extent to at least `n` blocks with blank blocks. */
  function Grown(e: Data, n: nat): (r: Data)
    ensures |r| == Max(|e|, n * BLOCK_SZ) && e <= r
  {
    if |e| >= n * BLOCK_SZ then e else e + Blank(n * BLOCK_SZ - |e|)
  }

  function Overwrite(e: Data, off: nat, buf: Data): (r: Data)
    requires off + |buf| <= |e|
    ensures |r| == |e|
    ensures forall i :: 0 <= i < |e| ==> r[i] == if off <= i < off + |buf| then buf[i - off] else e[i]
  {
    e[..off] + buf + e[off + |buf|..]
  }

  function Written(f: AFile, off: nat, buf: Data): AFile {
    var needed := off + |buf|;
    f.(extent := Overwrite(Grown(f.extent, BlocksFor(needed)), off, buf), size := Max(f.size, needed))
  }

  /** The part of `e` between `lo` and `hi` that exists. */
  function Slice(e: Data, lo: nat, hi: nat): Data {
    var stop := Min(hi, |e|);
    if lo >= stop then [] else e[lo..stop]
  }

  /** The bytes from `off`, at most `maxLen`, within both the size and the extent. */
  function ReadBytes(f: AFile, off: nat, maxLen: nat): Data {
    Slice(f.extent, off, Min(off + maxLen, f.size))
  }

  function Truncated(f: AFile, size: nat): AFile {
    f.(extent := f.extent[..Min(|f.extent|, BlocksFor(size) * BLOCK_SZ)], size := size)
  }

  // ---- operations -----------------------------------------------------------

  datatype Op =
    | CreateFile(dir: nat, name: string)
    | CreateDir(dir: nat, name: string)
    | Unlink(dir: nat, name: string)
    | Read(ino: nat, off: nat, maxLen: nat)
    | Write(ino: nat, off: nat, buf: Data)
    | Truncate(ino: nat, size: nat)
    | Sync
    | Inject(n: nat)

  datatype Outcome = Inode(ino: nat) | Bytes(data: Data) | Count(n: nat) | Done | Failed(error: string)

  function Create(a: AFS, dir: nat, name: string, kind: Kind): (AFS, Outcome) {
    var a1 := a.(nextIno := a.nextIno + 1);
    if dir !in a.files then (a1, Failed("enoent"))
    else if a.files[dir].kind != Directory then (a1, Failed("enotdir"))
    else if kind == Directory && name in a.files[dir].children then (a1, Failed("eexist"))
    else
      var d := a.files[dir];
      (a1.(files := a.files[dir := d.(children := d.children[name := a.nextIno])][a.nextIno := NewInode(kind)]),
       Inode(a.nextIno))
  }

  function Remove(a: AFS, dir: nat, name: string): (AFS, Outcome) {
    if dir !in a.files then (a, Failed("enoent"))
    else if a.files[dir].kind != Directory then (a, Failed("enotdir"))
    else if name !in a.files[dir].children then (a, Failed("enoent"))
    else
      var d := a.files[dir];
      (a.(files := a.files[dir := d.(children := d.children - {name})] - {d.children[name]}), Done)
  }

  /** Without the two degenerate calls the code panics on, an empty write at offset 0 and an
      empty read at offset 0 of a non-empty file, and without permanent disk faults. */
  predicate Defined(a: AFS, op: Op) {
    && (op.Inject? ==> op.n < USIZE_MAX)
    && (op.Write? && op.ino in a.files && a.files[op.ino].kind == File ==> op.off + |op.buf| > 0)
    && (op.Read? && op.ino in a.files && a.files[op.ino].kind == File
        ==> op.off + op.maxLen > 0 || a.files[op.ino].size == 0)
  }

  function Step(a: AFS, op: Op): (AFS, Outcome) {
    match op
    case CreateFile(dir, name) => Create(a, dir, name, File)
    case CreateDir(dir, name) => Create(a, dir, name, Directory)
    case Unlink(dir, name) => Remove(a, dir, name)
    case Read(ino, off, maxLen) =>
      if ino !in a.files then (a, Failed("enoent"))
      else if a.files[ino].kind != File then (a, Failed("eisdir"))
      else (a, Bytes(ReadBytes(a.files[ino], off, maxLen)))
    case Write(ino, off, buf) =>
      if ino !in a.files then (a, Failed("enoent"))
      else if a.files[ino].kind != File then (a, Failed("eisdir"))
      else (a.(files := a.files[ino := Written(a.files[ino], off, buf)]), Count(|buf|))
    case Truncate(ino, size) =>
      if ino !in a.files then (a, Failed("enoent"))
      else (a.(files := a.files[ino := Truncated(a.files[ino], size)]), Done)
    case Sync => (a, Done)
    case Inject(_) => (a, Done)
  }

  /** The state and the outcomes of a whole run. */
  function Run(a: AFS, ops: seq<Op>): (AFS, seq<Outcome>) {
    if ops == [] then (a, [])
    else
      var (b, outs) := Run(a, ops[..|ops| - 1]);
      var (c, out) := Step(b, ops[|ops| - 1]);
      (c, outs + [out])
  }

  predicate DefinedRun(a: AFS, ops: seq<Op>) {
    ops == [] || (DefinedRun(a, ops[..|ops| - 1]) && Defined(Run(a, ops[..|ops| - 1]).0, ops[|ops| - 1]))
  }
}
