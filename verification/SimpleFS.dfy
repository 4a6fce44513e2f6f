/** The inode table and its data path, refined to the abstract file system `Files`. */
module SimpleFS {
  import opened Common
  import opened BlockCache
  import opened CacheSync
  import opened Files

  datatype INode = INode(kind: Kind, blocks: seq<nat>, size: nat, children: map<string, nat>)

  type Table = map<nat, INode>

  /** Block lists hold allocated numbers only, and no block belongs to two places. */
  ghost predicate OwnBlocks(inodes: Table, nextBlk: nat) {
    && (forall n, i :: n in inodes && 0 <= i < |inodes[n].blocks| ==> inodes[n].blocks[i] < nextBlk)
    && (forall n, i, j :: n in inodes && 0 <= i < j < |inodes[n].blocks| ==> inodes[n].blocks[i] != inodes[n].blocks[j])
    && (forall n, m, i, j :: n in inodes && m in inodes && n != m
              && 0 <= i < |inodes[n].blocks| && 0 <= j < |inodes[m].blocks|
          ==> inodes[n].blocks[i] != inodes[m].blocks[j])
  }

  // ---- contents -------------------------------------------------------------

  /** Block contents, through the cache. */
  type View = nat -> Data

  ghost function ViewOf(chains: seq<Chain>, blocks: Blocks): View
    requires |chains| > 0
  {
    (b: nat) => Logical(chains, blocks, b)
  }

  ghost predicate FullView(v: View) {
    forall b :: |v(b)| == BLOCK_SZ
  }

  ghost function Extent(blks: seq<nat>, v: View): (e: Data)
    requires FullView(v)
    ensures |e| == |blks| * BLOCK_SZ
    ensures forall i :: 0 <= i < |e| ==> e[i] == v(blks[i / BLOCK_SZ])[i % BLOCK_SZ]
  {
    seq(|blks| * BLOCK_SZ, i requires 0 <= i < |blks| * BLOCK_SZ => v(blks[i / BLOCK_SZ])[i % BLOCK_SZ])
  }

  ghost function Abstract(n: INode, v: View): AFile
    requires FullView(v)
  {
    AFile(n.kind, Extent(n.blocks, v), n.size, n.children)
  }

  ghost function AbstractTable(inodes: Table, v: View): map<nat, AFile>
    requires FullView(v)
  {
    map n | n in inodes :: Abstract(inodes[n], v)
  }

  lemma SameViewSameExtent(blks: seq<nat>, v: View, w: View)
    requires FullView(v) && FullView(w) && forall i :: 0 <= i < |blks| ==> v(blks[i]) == w(blks[i])
    ensures Extent(blks, v) == Extent(blks, w)
  {
  }

  lemma PrefixExtent(blks: seq<nat>, n: nat, v: View)
    requires FullView(v) && n <= |blks|
    ensures Extent(blks[..n], v) == Extent(blks, v)[..n * BLOCK_SZ]
  {
  }

  /** Appending blank blocks grows the extent. */
  lemma AppendedExtent(blks: seq<nat>, added: seq<nat>, v: View)
    requires FullView(v) && forall i :: 0 <= i < |added| ==> v(added[i]) == Blank(BLOCK_SZ)
    ensures Extent(blks + added, v) == Grown(Extent(blks, v), |blks + added|)
  {
    var e, g := Extent(blks + added, v), Grown(Extent(blks, v), |blks + added|);
    forall i | 0 <= i < |e|
      ensures e[i] == g[i]
    {
      if i >= |blks| * BLOCK_SZ {
        assert (blks + added)[i / BLOCK_SZ] == added[i / BLOCK_SZ - |blks|];
      }
    }
  }

  /** Replacing bytes `lo..lo + |part|` of block `bi` extends a partial overwrite. */
  lemma WriteStep(blks: seq<nat>, v: View, w: View, bi: nat, lo: nat, ext: Data,
                 off: nat, buf: Data, total: nat, copy: nat)
    requires FullView(v) && FullView(w) && bi < |blks|
    requires forall i, j :: 0 <= i < j < |blks| ==> blks[i] != blks[j]
    requires |ext| == |blks| * BLOCK_SZ && off + |buf| <= |ext| && total + copy <= |buf|
    requires lo + copy <= BLOCK_SZ && bi * BLOCK_SZ + lo == off + total
    requires forall b :: w(b) == if b == blks[bi] then Overwrite(v(b), lo, buf[total..total + copy]) else v(b)
    requires Extent(blks, v) == Overwrite(ext, off, buf[..total])
    ensures Extent(blks, w) == Overwrite(ext, off, buf[..total + copy])
  {
    var e, g := Extent(blks, w), Overwrite(ext, off, buf[..total + copy]);
    var e0 := Extent(blks, v);
    forall i | 0 <= i < |e|
      ensures e[i] == g[i]
    {
      var q, r := i / BLOCK_SZ, i % BLOCK_SZ;
      assert e0[i] == v(blks[q])[r];
      if q == bi {
        assert e[i] == Overwrite(v(blks[bi]), lo, buf[total..total + copy])[r];
      } else {
        assert blks[q] != blks[bi];
        assert e[i] == e0[i];
      }
    }
  }

  // ---- the object -----------------------------------------------------------

  ghost predicate Consistent(inodes: Table, nextIno: nat, nextBlk: nat, v: View) {
    && OwnBlocks(inodes, nextBlk)
    && FullView(v)
    && (forall b :: b >= nextBlk ==> v(b) == Blank(BLOCK_SZ))
    && (forall n :: n in inodes ==> n < nextIno)
  }

  ghost function AbstractFS(inodes: Table, nextIno: nat, v: View): AFS
    requires FullView(v)
  {
    AFS(AbstractTable(inodes, v), nextIno)
  }

  lemma FullBlocksFullView(chains: seq<Chain>, blocks: Blocks)
    requires |chains| > 0 && FullBlocks(chains)
    ensures FullView(ViewOf(chains, blocks))
  {
  }

  lemma SameViewSameTable(inodes: Table, v: View, w: View)
    requires FullView(v) && FullView(w)
    requires forall b :: v(b) == w(b)
    ensures AbstractTable(inodes, v) == AbstractTable(inodes, w)
  {
    forall n | n in inodes
      ensures Abstract(inodes[n], v) == Abstract(inodes[n], w)
    {
      SameViewSameExtent(inodes[n].blocks, v, w);
    }
  }

  /** Replacing one inode, and block contents no other inode owns, changes one file. */
  lemma OneFileChanges(inodes: Table, ino: nat, node: INode, v: View, w: View)
    requires FullView(v) && FullView(w)
    requires forall n, i :: n in inodes && n != ino && 0 <= i < |inodes[n].blocks|
               ==> v(inodes[n].blocks[i]) == w(inodes[n].blocks[i])
    ensures AbstractTable(inodes[ino := node], w) == AbstractTable(inodes, v)[ino := Abstract(node, w)]
  {
    forall n | n in inodes && n != ino
      ensures Abstract(inodes[n], v) == Abstract(inodes[n], w)
    {
      SameViewSameExtent(inodes[n].blocks, v, w);
    }
  }

  class FileSystem {
    var inodes: Table
    var nextIno: nat
    var nextBlk: nat

    ghost predicate Valid(cache: Cache, disk: Disk)
      reads this, cache, disk
    {
      && cache.Valid() && FullBlocks(cache.chains) && disk.errs < USIZE_MAX
      && Consistent(inodes, nextIno, nextBlk, ViewOf(cache.chains, disk.blocks))
    }

    ghost function Abs(cache: Cache, disk: Disk): AFS
      requires Valid(cache, disk)
      reads this, cache, disk
    {
      AbstractFS(inodes, nextIno, ViewOf(cache.chains, disk.blocks))
    }

    constructor ()
      ensures inodes == map[0 := INode(Directory, [], 0, map[])] && nextIno == 1 && nextBlk == 0
    {
      inodes := map[0 := INode(Directory, [], 0, map[])];
      nextIno, nextBlk := 1, 0;
    }

    method ReadData(ino: nat, off: nat, maxLen: nat, cache: Cache, disk: Disk) returns (r: Result<Data>)
      requires Valid(cache, disk) && Defined(Abs(cache, disk), Read(ino, off, maxLen))
      modifies cache`chains, disk`errs, disk`ops
      ensures Valid(cache, disk) && Abs(cache, disk) == old(Abs(cache, disk))
      ensures Step(old(Abs(cache, disk)), Read(ino, off, maxLen)).1
           == if r.Ok? then Bytes(r.value) else Failed(r.error)
    {
      if ino !in inodes {
        return Err("enoent");
      }
      var inode := inodes[ino];
      if inode.kind != File {
        return Err("eisdir");
      }
      if off >= inode.size {
        return Ok([]);
      }
      ghost var v := ViewOf(cache.chains, disk.blocks);
      var result := ReadBlocks(inode.blocks, off, Min(maxLen, inode.size - off), cache, disk);
      FullBlocksFullView(cache.chains, disk.blocks);
      SameViewSameTable(inodes, v, ViewOf(cache.chains, disk.blocks));
      return Ok(result);
    }

    /** One iteration: the requested bytes of block `bi`. */
    static method ReadBlock(blocks: seq<nat>, bi: nat, off: nat, n: nat,
                            ghost ext: Data, ghost v: View, cache: Cache, disk: Disk)
      returns (piece: Data)
      requires cache.Valid() && FullBlocks(cache.chains) && disk.errs < USIZE_MAX
      requires FullView(v) && ext == Extent(blocks, v)
      requires forall b :: Logical(cache.chains, disk.blocks, b) == v(b)
      requires off + n > 0 && off / BLOCK_SZ <= bi <= (off + n - 1) / BLOCK_SZ && bi < |blocks|
      modifies cache`chains, disk`errs, disk`ops
      ensures cache.Valid() && FullBlocks(cache.chains) && disk.errs < USIZE_MAX
      ensures forall b :: Logical(cache.chains, disk.blocks, b) == v(b)
      ensures ReadSoFar(ext, off, n, bi + 1) == ReadSoFar(ext, off, n, bi) + piece
    {
      var blk := cache.Fetch(blocks[bi], disk);
      var blkOff := if bi == off / BLOCK_SZ then off % BLOCK_SZ else 0;
      var blkEnd := if bi == (off + n - 1) / BLOCK_SZ then (off + n - 1) % BLOCK_SZ + 1 else BLOCK_SZ;
      SliceExtends(ext, off, n, bi, blkOff, blkEnd);
      ReadPiece(blocks, v, bi, blkOff, blkEnd);
      assert blk == v(blocks[bi]);
      piece := blk[blkOff..blkEnd];
    }

    /** The block loop of a read: `n` bytes from `off`, stopping at the last block. */
    static method ReadBlocks(blocks: seq<nat>, off: nat, n: nat, cache: Cache, disk: Disk) returns (result: Data)
      requires cache.Valid() && FullBlocks(cache.chains) && disk.errs < USIZE_MAX && off + n > 0
      modifies cache`chains, disk`errs, disk`ops
      ensures cache.Valid() && FullBlocks(cache.chains) && disk.errs < USIZE_MAX
      ensures forall b :: Logical(cache.chains, disk.blocks, b) == old(Logical(cache.chains, disk.blocks, b))
      ensures FullView(old(ViewOf(cache.chains, disk.blocks)))
      ensures result == Slice(Extent(blocks, old(ViewOf(cache.chains, disk.blocks))), off, off + n)
    {
      var startBlk := off / BLOCK_SZ;
      var endBlk := (off + n - 1) / BLOCK_SZ;
      ghost var v := ViewOf(cache.chains, disk.blocks);
      FullBlocksFullView(cache.chains, disk.blocks);
      ghost var ext := Extent(blocks, v);
      result := [];
      var bi := startBlk;
      while bi <= endBlk
        invariant startBlk <= bi <= Max(endBlk + 1, startBlk)
        invariant cache.Valid() && FullBlocks(cache.chains) && disk.errs < USIZE_MAX
        invariant forall b :: Logical(cache.chains, disk.blocks, b) == v(b)
        invariant bi > startBlk ==> bi <= |blocks|
        invariant result == ReadSoFar(ext, off, n, bi)
        decreases endBlk + 1 - bi
      {
        if bi >= |blocks| {
          break;
        }
        var piece := ReadBlock(blocks, bi, off, n, ext, v, cache, disk);
        result := result + piece;
        bi := bi + 1;
      }
      ReadComplete(ext, off, n, bi, |blocks|);
    }

    /** Fetch a block, replace the bytes from `lo`, and put it back. */
    static method Patch(k: nat, lo: nat, part: Data, cache: Cache, disk: Disk)
      requires cache.Valid() && FullBlocks(cache.chains) && disk.errs < USIZE_MAX
      requires FullView(ViewOf(cache.chains, disk.blocks)) && lo + |part| <= BLOCK_SZ
      modifies cache`chains, disk`errs, disk`ops
      ensures cache.Valid() && FullBlocks(cache.chains) && disk.errs < USIZE_MAX
      ensures FullView(ViewOf(cache.chains, disk.blocks))
      ensures var v := old(ViewOf(cache.chains, disk.blocks));
              forall b :: Logical(cache.chains, disk.blocks, b) == if b == k then Overwrite(v(b), lo, part) else v(b)
    {
      PatchEffects(cache.chains, disk.blocks, k, lo, part);
      var blk := cache.Fetch(k, disk);
      blk := Overwrite(blk, lo, part);
      cache.Put(k, blk);
    }

    /** One iteration: the next bytes of the buffer go to `lo..hi` of block `bi`. */
    static method WriteBlock(blocks: seq<nat>, bi: nat, lo: nat, hi: nat, off: nat, buf: Data, total: nat,
                             ghost ext: Data, cache: Cache, disk: Disk)
      requires cache.Valid() && FullBlocks(cache.chains) && disk.errs < USIZE_MAX
      requires FullView(ViewOf(cache.chains, disk.blocks))
      requires bi < |blocks| && |blocks| * BLOCK_SZ == |ext| && off + |buf| <= |ext|
      requires forall i, j :: 0 <= i < j < |blocks| ==> blocks[i] != blocks[j]
      requires lo <= hi <= BLOCK_SZ && bi * BLOCK_SZ + lo == off + total && total + hi - lo <= |buf|
      requires Extent(blocks, ViewOf(cache.chains, disk.blocks)) == Overwrite(ext, off, buf[..total])
      modifies cache`chains, disk`errs, disk`ops
      ensures cache.Valid() && FullBlocks(cache.chains) && disk.errs < USIZE_MAX
      ensures FullView(ViewOf(cache.chains, disk.blocks))
      ensures Extent(blocks, ViewOf(cache.chains, disk.blocks)) == Overwrite(ext, off, buf[..total + hi - lo])
      ensures forall b :: b !in blocks ==>
                Logical(cache.chains, disk.blocks, b) == old(Logical(cache.chains, disk.blocks, b))
    {
      ghost var v := ViewOf(cache.chains, disk.blocks);
      var copy := hi - lo;
      var part := buf[total..total + copy];
      assert blocks[bi] in blocks;
      Patch(blocks[bi], lo, part, cache, disk);
      WriteStep(blocks, v, ViewOf(cache.chains, disk.blocks), bi, lo, ext, off, buf, total, copy);
    }

    /** The bounds of one iteration, and the iteration. */
    static method WriteNext(blocks: seq<nat>, bi: nat, off: nat, buf: Data, total: nat,
                            ghost ext: Data, cache: Cache, disk: Disk)
      returns (copied: nat)
      requires cache.Valid() && FullBlocks(cache.chains) && disk.errs < USIZE_MAX
      requires FullView(ViewOf(cache.chains, disk.blocks))
      requires 0 < off + |buf| <= |ext| == |blocks| * BLOCK_SZ && off / BLOCK_SZ <= bi <= (off + |buf| - 1) / BLOCK_SZ
      requires forall i, j :: 0 <= i < j < |blocks| ==> blocks[i] != blocks[j]
      requires total == CopiedBefore(off, |buf|, bi) <= |buf|
      requires Extent(blocks, ViewOf(cache.chains, disk.blocks)) == Overwrite(ext, off, buf[..total])
      modifies cache`chains, disk`errs, disk`ops
      ensures cache.Valid() && FullBlocks(cache.chains) && disk.errs < USIZE_MAX
      ensures FullView(ViewOf(cache.chains, disk.blocks))
      ensures total + copied == CopiedBefore(off, |buf|, bi + 1) <= |buf|
      ensures Extent(blocks, ViewOf(cache.chains, disk.blocks)) == Overwrite(ext, off, buf[..total + copied])
      ensures forall b :: b !in blocks ==>
                Logical(cache.chains, disk.blocks, b) == old(Logical(cache.chains, disk.blocks, b))
    {
      var blkOff := if bi == off / BLOCK_SZ then off % BLOCK_SZ else 0;
      var blkEnd := if bi == (off + |buf| - 1) / BLOCK_SZ then (off + |buf| - 1) % BLOCK_SZ + 1 else BLOCK_SZ;
      CopyBounds(off, |buf|, bi, blkOff, blkEnd);
      WriteBlock(blocks, bi, blkOff, blkEnd, off, buf, total, ext, cache, disk);
      copied := blkEnd - blkOff;
    }

    /** The block loop of a write, over the file's already allocated blocks. */
    static method WriteBlocks(blocks: seq<nat>, off: nat, buf: Data, cache: Cache, disk: Disk)
      requires cache.Valid() && FullBlocks(cache.chains) && disk.errs < USIZE_MAX
      requires 0 < off + |buf| <= |blocks| * BLOCK_SZ
      requires forall i, j :: 0 <= i < j < |blocks| ==> blocks[i] != blocks[j]
      modifies cache`chains, disk`errs, disk`ops
      ensures cache.Valid() && FullBlocks(cache.chains) && disk.errs < USIZE_MAX
      ensures FullView(old(ViewOf(cache.chains, disk.blocks))) && FullView(ViewOf(cache.chains, disk.blocks))
      ensures forall b :: b !in blocks ==>
                Logical(cache.chains, disk.blocks, b) == old(Logical(cache.chains, disk.blocks, b))
      ensures Extent(blocks, ViewOf(cache.chains, disk.blocks))
           == Overwrite(Extent(blocks, old(ViewOf(cache.chains, disk.blocks))), off, buf)
    {
      var needed := off + |buf|;
      var startBlk := off / BLOCK_SZ;
      var endBlk := (needed - 1) / BLOCK_SZ;
      ghost var v0 := ViewOf(cache.chains, disk.blocks);
      FullBlocksFullView(cache.chains, disk.blocks);
      ghost var ext := Extent(blocks, v0);
      var total := 0;
      var bi := startBlk;
      assert Extent(blocks, v0) == Overwrite(ext, off, buf[..0]);
      while bi <= endBlk
        invariant startBlk <= bi <= Max(endBlk + 1, startBlk)
        invariant total == CopiedBefore(off, |buf|, bi) <= |buf|
        invariant cache.Valid() && FullBlocks(cache.chains) && disk.errs < USIZE_MAX
        invariant FullView(ViewOf(cache.chains, disk.blocks))
        invariant forall b :: b !in blocks ==> Logical(cache.chains, disk.blocks, b) == v0(b)
        invariant Extent(blocks, ViewOf(cache.chains, disk.blocks)) == Overwrite(ext, off, buf[..total])
        decreases endBlk + 1 - bi
      {
        var copied := WriteNext(blocks, bi, off, buf, total, ext, cache, disk);
        total := total + copied;
        bi := bi + 1;
      }
      CopyComplete(off, |buf|, bi);
      assert buf[..total] == buf;
    }

    /** Append freshly numbered blocks until block `endBlk` exists. */
    static method AllocBlocks(start: seq<nat>, endBlk: nat, nextBlk: nat) returns (blocks: seq<nat>, next: nat)
      ensures next >= nextBlk && blocks == start + Range(nextBlk, next)
      ensures |blocks| == Max(|start|, endBlk + 1)
    {
      blocks, next := start, nextBlk;
      while |blocks| <= endBlk
        invariant next >= nextBlk && blocks == start + Range(nextBlk, next)
        invariant |blocks| <= Max(|start|, endBlk + 1)
        decreases endBlk + 1 - |blocks|
      {
        blocks := blocks + [next];
        next := next + 1;
      }
    }

    /** The write proper, to an existing file. */
    method WriteFile(ino: nat, off: nat, buf: Data, cache: Cache, disk: Disk)
      requires Valid(cache, disk) && ino in inodes && inodes[ino].kind == File && off + |buf| > 0
      modifies this`inodes, this`nextBlk, cache`chains, disk`errs, disk`ops
      ensures Valid(cache, disk) && nextIno == old(nextIno)
      ensures AbstractTable(inodes, ViewOf(cache.chains, disk.blocks))
           == AbstractTable(old(inodes), old(ViewOf(cache.chains, disk.blocks)))
              [ino := Written(Abstract(old(inodes)[ino], old(ViewOf(cache.chains, disk.blocks))), off, buf)]
    {
      var inode := inodes[ino];
      var needed := off + |buf|;
      var endBlk := (needed - 1) / BLOCK_SZ;
      var blocks, next := AllocBlocks(inode.blocks, endBlk, nextBlk);
      ghost var v := ViewOf(cache.chains, disk.blocks);
      AllocatedBlocks(inodes, ino, nextBlk, next, v);
      WriteBlocks(blocks, off, buf, cache, disk);
      ghost var w := ViewOf(cache.chains, disk.blocks);
      WriteCommits(inodes, nextIno, nextBlk, ino, off, buf, next, v, w);
      inodes := inodes[ino := inode.(blocks := blocks, size := if needed > inode.size then needed else inode.size)];
      nextBlk := next;
    }

    method WriteData(ino: nat, off: nat, buf: Data, cache: Cache, disk: Disk) returns (r: Result<nat>)
      requires Valid(cache, disk) && Defined(Abs(cache, disk), Write(ino, off, buf))
      modifies this`inodes, this`nextBlk, cache`chains, disk`errs, disk`ops
      ensures Valid(cache, disk)
      ensures (Abs(cache, disk), if r.Ok? then Count(r.value) else Failed(r.error))
           == Step(old(Abs(cache, disk)), Write(ino, off, buf))
    {
      if ino !in inodes {
        return Err("enoent");
      }
      if inodes[ino].kind != File {
        return Err("eisdir");
      }
      WriteFile(ino, off, buf, cache, disk);
      return Ok(|buf|);
    }

    method Truncate(ino: nat, size: nat, ghost cache: Cache, ghost disk: Disk) returns (r: Result<()>)
      requires Valid(cache, disk)
      modifies this`inodes
      ensures Valid(cache, disk)
      ensures (Abs(cache, disk), if r.Ok? then Done else Failed(r.error))
           == Step(old(Abs(cache, disk)), Op.Truncate(ino, size))
    {
      if ino !in inodes {
        return Err("enoent");
      }
      var inode := inodes[ino];
      var needed := (size + BLOCK_SZ - 1) / BLOCK_SZ;
      var keep := Min(|inode.blocks|, needed);
      TruncateCommits(inodes, nextIno, nextBlk, ino, size, ViewOf(cache.chains, disk.blocks));
      inodes := inodes[ino := inode.(blocks := inode.blocks[..keep], size := size)];
      return Ok(());
    }

    method CreateFile(dir: nat, name: string, ghost cache: Cache, ghost disk: Disk) returns (r: Result<nat>)
      requires Valid(cache, disk)
      modifies this`inodes, this`nextIno
      ensures Valid(cache, disk)
      ensures (Abs(cache, disk), if r.Ok? then Inode(r.value) else Failed(r.error))
           == Step(old(Abs(cache, disk)), Op.CreateFile(dir, name))
    {
      var ino := nextIno;
      nextIno := nextIno + 1;
      if dir !in inodes {
        return Err("enoent");
      }
      if inodes[dir].kind != Directory {
        return Err("enotdir");
      }
      CreateCommits(inodes, ino, nextBlk, dir, name, File, ViewOf(cache.chains, disk.blocks));
      inodes := inodes[dir := inodes[dir].(children := inodes[dir].children[name := ino])];
      inodes := inodes[ino := INode(File, [], 0, map[])];
      return Ok(ino);
    }

    method CreateDir(dir: nat, name: string, ghost cache: Cache, ghost disk: Disk) returns (r: Result<nat>)
      requires Valid(cache, disk)
      modifies this`inodes, this`nextIno
      ensures Valid(cache, disk)
      ensures (Abs(cache, disk), if r.Ok? then Inode(r.value) else Failed(r.error))
           == Step(old(Abs(cache, disk)), Op.CreateDir(dir, name))
    {
      var ino := nextIno;
      nextIno := nextIno + 1;
      if dir !in inodes {
        return Err("enoent");
      }
      if inodes[dir].kind != Directory {
        return Err("enotdir");
      }
      if name in inodes[dir].children {
        return Err("eexist");
      }
      CreateCommits(inodes, ino, nextBlk, dir, name, Directory, ViewOf(cache.chains, disk.blocks));
      inodes := inodes[dir := inodes[dir].(children := inodes[dir].children[name := ino])];
      inodes := inodes[ino := INode(Directory, [], 0, map[])];
      return Ok(ino);
    }

    method Unlink(dir: nat, name: string, ghost cache: Cache, ghost disk: Disk) returns (r: Result<()>)
      requires Valid(cache, disk)
      modifies this`inodes
      ensures Valid(cache, disk)
      ensures (Abs(cache, disk), if r.Ok? then Done else Failed(r.error))
           == Step(old(Abs(cache, disk)), Op.Unlink(dir, name))
    {
      if dir !in inodes {
        return Err("enoent");
      }
      if inodes[dir].kind != Directory {
        return Err("enotdir");
      }
      if name !in inodes[dir].children {
        return Err("enoent");
      }
      var target := inodes[dir].children[name];
      UnlinkCommits(inodes, dir, name, ViewOf(cache.chains, disk.blocks));
      inodes := inodes[dir := inodes[dir].(children := inodes[dir].children - {name})];
      inodes := inodes - {target};
      return Ok(());
    }

    method Sync(cache: Cache, disk: Disk)
      requires Valid(cache, disk)
      modifies cache`chains, disk
      ensures Valid(cache, disk) && Abs(cache, disk) == old(Abs(cache, disk))
    {
      ghost var chains, blocks, errs := cache.chains, disk.blocks, disk.errs;
      ghost var v := ViewOf(chains, blocks);
      cache.SyncAll(disk);
      assert cache.chains == CleanAll(chains);
      ErrsAfter(Flatten(chains), blocks, errs);
      forall b
        ensures Logical(cache.chains, disk.blocks, b) == Logical(chains, blocks, b)
      {
        SyncKeepsLogical(chains, blocks, errs, b);
      }
      SameViewSameTable(inodes, v, ViewOf(cache.chains, disk.blocks));
    }
  }

  lemma TruncateCommits(inodes: Table, nextIno: nat, nextBlk: nat, ino: nat, size: nat, v: View)
    requires Consistent(inodes, nextIno, nextBlk, v) && ino in inodes
    ensures var keep := Min(|inodes[ino].blocks|, BlocksFor(size));
            var node := inodes[ino].(blocks := inodes[ino].blocks[..keep], size := size);
            && Consistent(inodes[ino := node], nextIno, nextBlk, v)
            && AbstractTable(inodes[ino := node], v)
            == AbstractTable(inodes, v)[ino := Truncated(Abstract(inodes[ino], v), size)]
  {
    var keep := Min(|inodes[ino].blocks|, BlocksFor(size));
    var node := inodes[ino].(blocks := inodes[ino].blocks[..keep], size := size);
    PrefixExtent(inodes[ino].blocks, keep, v);
    OneFileChanges(inodes, ino, node, v, v);
  }

  lemma UnlinkCommits(inodes: Table, dir: nat, name: string, v: View)
    requires FullView(v) && dir in inodes && name in inodes[dir].children
    ensures var node := inodes[dir].(children := inodes[dir].children - {name});
            var target := inodes[dir].children[name];
            AbstractTable(inodes[dir := node] - {target}, v)
            == AbstractTable(inodes, v)[dir := Abstract(node, v)] - {target}
  {
    var node := inodes[dir].(children := inodes[dir].children - {name});
    OneFileChanges(inodes, dir, node, v, v);
  }

  lemma CreateCommits(inodes: Table, ino: nat, nextBlk: nat, dir: nat, name: string, kind: Kind, v: View)
    requires Consistent(inodes, ino, nextBlk, v) && dir in inodes
    ensures var node := inodes[dir].(children := inodes[dir].children[name := ino]);
            var inodes' := inodes[dir := node][ino := INode(kind, [], 0, map[])];
            && Consistent(inodes', ino + 1, nextBlk, v)
            && AbstractTable(inodes', v) == AbstractTable(inodes, v)[dir := Abstract(node, v)][ino := NewInode(kind)]
  {
    var node := inodes[dir].(children := inodes[dir].children[name := ino]);
    OneFileChanges(inodes, dir, node, v, v);
    OneFileChanges(inodes[dir := node], ino, INode(kind, [], 0, map[]), v, v);
    assert Extent([], v) == [];
  }

  /** The table after a write: consistent again, and one file written. */
  lemma WriteCommits(inodes: Table, nextIno: nat, nextBlk: nat, ino: nat, off: nat,
                     buf: Data, next: nat, v: View, w: View)
    requires Consistent(inodes, nextIno, nextBlk, v) && FullView(w)
    requires ino in inodes && next >= nextBlk && off + |buf| > 0
    requires var blocks := inodes[ino].blocks + Range(nextBlk, next);
             && |blocks| == Max(|inodes[ino].blocks|, BlocksFor(off + |buf|))
             && (forall b :: b !in blocks ==> w(b) == v(b))
             && Extent(blocks, w) == Overwrite(Extent(blocks, v), off, buf)
    ensures var node := inodes[ino].(blocks := inodes[ino].blocks + Range(nextBlk, next),
                                     size := Max(inodes[ino].size, off + |buf|));
            && Consistent(inodes[ino := node], nextIno, next, w)
            && AbstractTable(inodes[ino := node], w)
            == AbstractTable(inodes, v)[ino := Written(Abstract(inodes[ino], v), off, buf)]
  {
    var blocks := inodes[ino].blocks + Range(nextBlk, next);
    var node := inodes[ino].(blocks := blocks, size := Max(inodes[ino].size, off + |buf|));
    AllocatedBlocks(inodes, ino, nextBlk, next, v);
    GrownTo(Extent(inodes[ino].blocks, v), |inodes[ino].blocks|, BlocksFor(off + |buf|));
    forall b | b >= next
      ensures w(b) == Blank(BLOCK_SZ)
    {
      assert b !in blocks;
    }
    OthersKeepBlocks(inodes, nextBlk, ino, next, v, w);
    OneFileChanges(inodes, ino, node, v, w);
  }

  lemma OthersKeepBlocks(inodes: Table, nextBlk: nat, ino: nat, next: nat, v: View, w: View)
    requires OwnBlocks(inodes, nextBlk) && ino in inodes && next >= nextBlk
    requires forall b :: b !in inodes[ino].blocks + Range(nextBlk, next) ==> w(b) == v(b)
    ensures forall n, i :: n in inodes && n != ino && 0 <= i < |inodes[n].blocks|
              ==> v(inodes[n].blocks[i]) == w(inodes[n].blocks[i])
  {
    forall n, i | n in inodes && n != ino && 0 <= i < |inodes[n].blocks|
      ensures v(inodes[n].blocks[i]) == w(inodes[n].blocks[i])
    {
      assert inodes[n].blocks[i] !in inodes[ino].blocks + Range(nextBlk, next);
    }
  }

  function Range(lo: nat, hi: nat): (r: seq<nat>)
    requires lo <= hi
    ensures |r| == hi - lo && forall i :: 0 <= i < |r| ==> r[i] == lo + i
  {
    seq(hi - lo, i => lo + i)
  }

  lemma GrownTo(e: Data, count: nat, n: nat)
    requires |e| == count * BLOCK_SZ
    ensures Grown(e, Max(count, n)) == Grown(e, n)
  {
  }

  /** Appending the next free block numbers to one inode keeps the blocks owned, and
      grows that file's extent by blank blocks. */
  lemma AllocatedBlocks(inodes: Table, ino: nat, nextBlk: nat, next: nat, v: View)
    requires OwnBlocks(inodes, nextBlk) && FullView(v) && ino in inodes && next >= nextBlk
    requires forall b :: b >= nextBlk ==> v(b) == Blank(BLOCK_SZ)
    ensures var blocks := inodes[ino].blocks + Range(nextBlk, next);
            && OwnBlocks(inodes[ino := inodes[ino].(blocks := blocks)], next)
            && (forall i, j :: 0 <= i < j < |blocks| ==> blocks[i] != blocks[j])
            && Extent(blocks, v) == Grown(Extent(inodes[ino].blocks, v), |blocks|)
  {
    AppendedExtent(inodes[ino].blocks, Range(nextBlk, next), v);
  }

  /** Fetching, patching and putting back one block changes that block only. */
  lemma PatchEffects(chains: seq<Chain>, blocks: Blocks, k: nat, lo: nat, part: Data)
    requires WellHashed(chains) && FullBlocks(chains) && lo + |part| <= BLOCK_SZ
    ensures |Logical(chains, blocks, k)| == BLOCK_SZ
    ensures var patched := Overwrite(Logical(chains, blocks, k), lo, part);
            var chains' := PutSpec(FetchSpec(chains, blocks, k), k, patched);
            && FullBlocks(chains') && FullView(ViewOf(chains, blocks)) && FullView(ViewOf(chains', blocks))
            && (forall b :: Logical(chains', blocks, b) == if b == k then patched else Logical(chains, blocks, b))
  {
    FullBlocksFullView(chains, blocks);
    assert |ViewOf(chains, blocks)(k)| == BLOCK_SZ;
    var patched := Overwrite(Logical(chains, blocks, k), lo, part);
    var mid := FetchSpec(chains, blocks, k);
    FetchEffects(chains, blocks, k);
    PutFullBlocks(mid, k, patched);
    PutLogical(mid, blocks, k, patched);
    FullBlocksFullView(PutSpec(mid, k, patched), blocks);
  }

  /** One more block of a read. */
  lemma SliceExtends(ext: Data, off: nat, n: nat, bi: nat, lo: nat, hi: nat)
    requires off + n > 0 && off / BLOCK_SZ <= bi <= (off + n - 1) / BLOCK_SZ && (bi + 1) * BLOCK_SZ <= |ext|
    requires lo == if bi == off / BLOCK_SZ then off % BLOCK_SZ else 0
    requires hi == if bi == (off + n - 1) / BLOCK_SZ then (off + n - 1) % BLOCK_SZ + 1 else BLOCK_SZ
    ensures lo <= hi <= BLOCK_SZ
    ensures ReadSoFar(ext, off, n, bi + 1) == ReadSoFar(ext, off, n, bi) + ext[bi * BLOCK_SZ + lo..bi * BLOCK_SZ + hi]
  {
  }

  /** The bytes a read has collected before block `bi`. */
  function ReadSoFar(ext: Data, off: nat, n: nat, bi: nat): Data {
    Slice(ext, off, Min(bi * BLOCK_SZ, off + n))
  }

  /** The block loop stops at the end of the request or of the blocks. */
  lemma ReadComplete(ext: Data, off: nat, n: nat, bi: nat, count: nat)
    requires off + n > 0 && |ext| == count * BLOCK_SZ && off / BLOCK_SZ <= bi
    requires bi > (off + n - 1) / BLOCK_SZ || bi >= count
    ensures ReadSoFar(ext, off, n, bi) == Slice(ext, off, off + n)
  {
  }

  /** Bytes of the buffer a write has placed before block `bi`. */
  function CopiedBefore(off: nat, len: nat, bi: nat): nat {
    if bi * BLOCK_SZ <= off then 0 else Min(bi * BLOCK_SZ, off + len) - off
  }

  lemma CopyBounds(off: nat, len: nat, bi: nat, lo: nat, hi: nat)
    requires off + len > 0 && off / BLOCK_SZ <= bi <= (off + len - 1) / BLOCK_SZ
    requires lo == if bi == off / BLOCK_SZ then off % BLOCK_SZ else 0
    requires hi == if bi == (off + len - 1) / BLOCK_SZ then (off + len - 1) % BLOCK_SZ + 1 else BLOCK_SZ
    ensures lo <= hi <= BLOCK_SZ
    ensures bi * BLOCK_SZ + lo == off + CopiedBefore(off, len, bi)
    ensures CopiedBefore(off, len, bi + 1) == CopiedBefore(off, len, bi) + (hi - lo) <= len
  {
  }

  lemma CopyComplete(off: nat, len: nat, bi: nat)
    requires off + len > 0 && bi > (off + len - 1) / BLOCK_SZ
    ensures CopiedBefore(off, len, bi) == len
  {
  }

  lemma ReadPiece(blks: seq<nat>, v: View, bi: nat, lo: nat, hi: nat)
    requires FullView(v) && bi < |blks| && lo <= hi <= BLOCK_SZ
    ensures v(blks[bi])[lo..hi] == Extent(blks, v)[bi * BLOCK_SZ + lo..bi * BLOCK_SZ + hi]
  {
  }
}
