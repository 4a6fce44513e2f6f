/** What each call on the file system does to the tree, the files and the paths, in every
    reachable state. */
module FileCalls {
  import opened Common
  import opened BlockCache
  import opened Files
  import opened Namespace
  import opened Paths

  /** `dir` is a directory that has an entry `name`. */
  predicate Has(a: AFS, dir: nat, name: string) {
    HasEntry(a.files, dir, name)
  }

  predicate IsDir(a: AFS, n: nat) {
    n in a.files && a.files[n].kind == Directory
  }

  predicate IsFile(a: AFS, n: nat) {
    n in a.files && a.files[n].kind == File
  }

  /** Same kind, bytes and size; entries aside. */
  predicate SameFile(f: AFile, g: AFile) {
    f.kind == g.kind && f.extent == g.extent && f.size == g.size
  }

  // ---- create ---------------------------------------------------------------

  /** A create takes a number, used or not. It succeeds exactly in a directory, and for a
      directory only under a free name; it then adds one empty inode of its kind, entered under
      the name in place of what was there, and changes nothing else. */
  lemma CreateExact(ops: seq<Op>, dir: nat, name: string, kind: Kind)
    ensures var a := Run(EMPTY, ops).0;
            var (b, out) := Step(a, if kind == File then CreateFile(dir, name) else CreateDir(dir, name));
            var ino := a.nextIno;
            && b.nextIno == ino + 1 && ino !in a.files
            && (out == Inode(ino) <==> IsDir(a, dir) && !(kind == Directory && Has(a, dir, name)))
            && (out != Inode(ino) ==> b.files == a.files)
            && (dir !in a.files <==> out == Failed("enoent"))
            && (IsFile(a, dir) <==> out == Failed("enotdir"))
            && (kind == Directory && Has(a, dir, name) <==> out == Failed("eexist"))
            && (out == Inode(ino) ==> Created(a, b, dir, name, kind))
  {
    EveryRunKeepsTree(ops);
    var a := Run(EMPTY, ops).0;
    var (b, out) := Create(a, dir, name, kind);
    if out == Inode(a.nextIno) {
      assert b.files[a.nextIno] == NewInode(kind);
    }
  }

  ghost predicate Created(a: AFS, b: AFS, dir: nat, name: string, kind: Kind) {
    var ino := a.nextIno;
    && ino in b.files && b.files[ino].kind == kind
    && b.files[ino].size == 0 && b.files[ino].extent == [] && b.files[ino].children == map[]
    && (forall n :: n in b.files <==> n in a.files || n == ino)
    && (forall n :: n in a.files ==> n in b.files && SameFile(b.files[n], a.files[n]))
    && (forall d, nm, n :: Entry(b.files, d, nm, n)
          <==> if d == dir && nm == name then n == ino else Entry(a.files, d, nm, n))
  }

  // ---- unlink ---------------------------------------------------------------

  /** An unlink succeeds exactly for an entry of a directory, and otherwise changes nothing. It
      removes the entry and its inode, and every other entry, file and size stays. */
  lemma UnlinkExact(ops: seq<Op>, dir: nat, name: string)
    ensures var a := Run(EMPTY, ops).0;
            var (b, out) := Step(a, Unlink(dir, name));
            && (out == Done <==> Has(a, dir, name))
            && (out == Failed("enotdir") <==> IsFile(a, dir))
            && (out == Failed("enoent") <==> dir !in a.files || (IsDir(a, dir) && !Has(a, dir, name)))
            && (out != Done ==> b == a)
            && (out == Done ==> Unlinked(a, b, dir, name))
  {
    EveryRunKeepsTree(ops);
    var a := Run(EMPTY, ops).0;
    var (b, out) := Step(a, Unlink(dir, name));
    if out == Done {
      UnlinkRemoves(a, b, dir, name);
    }
  }

  ghost predicate Unlinked(a: AFS, b: AFS, dir: nat, name: string)
    requires Has(a, dir, name)
  {
    var gone := a.files[dir].children[name];
    && gone in a.files && gone !in b.files && b.nextIno == a.nextIno
    && (forall n :: n in b.files <==> n in a.files && n != gone)
    && (forall n :: n in b.files ==> SameFile(b.files[n], a.files[n]))
    && (forall d, nm, n :: Entry(b.files, d, nm, n)
          <==> d != gone && !(d == dir && nm == name) && Entry(a.files, d, nm, n))
  }

  lemma UnlinkRemoves(a: AFS, b: AFS, dir: nat, name: string)
    requires Tree(a) && Has(a, dir, name) && b == Step(a, Unlink(dir, name)).0
    ensures Unlinked(a, b, dir, name)
  {
    var gone := a.files[dir].children[name];
    assert Entry(a.files, dir, name, gone) && gone != dir;
    forall d, nm, n
      ensures Entry(b.files, d, nm, n)
              <==> d != gone && !(d == dir && nm == name) && Entry(a.files, d, nm, n)
    {
    }
  }

  /** The walk takes the entry `name` of `dir`. */
  predicate Takes(files: map<nat, AFile>, cur: nat, cs: seq<string>, dir: nat, name: string)
    decreases |cs|
  {
    && cs != [] && HasEntry(files, cur, cs[0])
    && ((cur == dir && cs[0] == name) || Takes(files, files[cur].children[cs[0]], cs[1..], dir, name))
  }

  /** What became of a walk from `cur` after the unlink of `name` in `dir`. */
  lemma {:induction false} WalkAfterUnlink(a: AFS, b: AFS, dir: nat, name: string, cur: nat, cs: seq<string>)
    requires Tree(a) && Has(a, dir, name) && Unlinked(a, b, dir, name) && cs != []
    requires cur != a.files[dir].children[name]
    ensures !Takes(a.files, cur, cs, dir, name) ==> Walk(b.files, cur, cs) == Walk(a.files, cur, cs)
    ensures Takes(a.files, cur, cs, dir, name) ==>
              Walk(b.files, cur, cs)
              == if Walk(a.files, cur, cs) == Ok(Found(a.files[dir].children[name], dir, name))
                 then Ok(Missing(dir, name)) else Err("enoent")
    decreases |cs|
  {
    if cur in a.files {
      SameEntry(a, b, dir, name, cur, cs[0]);
      if HasEntry(a.files, cur, cs[0]) {
        var next := a.files[cur].children[cs[0]];
        assert Entry(a.files, cur, cs[0], next);
        if cur == dir && cs[0] == name {
          if |cs| > 1 { NotBack(a, next, cs[1..], dir, name); }
        } else {
          assert Entry(a.files, dir, name, a.files[dir].children[name]);
          assert HasEntry(b.files, cur, cs[0]) && b.files[cur].children[cs[0]] == next;
          assert Takes(a.files, cur, cs, dir, name) == Takes(a.files, next, cs[1..], dir, name);
          if |cs| > 1 {
            WalkAfterUnlink(a, b, dir, name, next, cs[1..]);
            assert Walk(a.files, cur, cs) == Walk(a.files, next, cs[1..]);
            assert Walk(b.files, cur, cs) == Walk(b.files, next, cs[1..]);
          }
        }
      }
    }
  }

  lemma SameEntry(a: AFS, b: AFS, dir: nat, name: string, d: nat, nm: string)
    requires Tree(a) && Has(a, dir, name) && Unlinked(a, b, dir, name)
    requires d in a.files && d != a.files[dir].children[name]
    ensures d in b.files && b.files[d].kind == a.files[d].kind
    ensures nm in b.files[d].children <==> nm in a.files[d].children && !(d == dir && nm == name)
    ensures nm in b.files[d].children ==> b.files[d].children[nm] == a.files[d].children[nm]
  {
    if nm in a.files[d].children {
      assert Entry(b.files, d, nm, a.files[d].children[nm])
             <==> !(d == dir && nm == name) && Entry(a.files, d, nm, a.files[d].children[nm]);
    }
    if nm in b.files[d].children {
      assert Entry(b.files, d, nm, b.files[d].children[nm]);
    }
  }

  /** A walk that goes on from the unlinked inode does not end at it. */
  lemma NotBack(a: AFS, cur: nat, cs: seq<string>, dir: nat, name: string)
    requires Tree(a) && Has(a, dir, name) && cs != [] && cur == a.files[dir].children[name]
    ensures Walk(a.files, cur, cs) != Ok(Found(cur, dir, name))
  {
    if Walk(a.files, cur, cs).Ok? && Walk(a.files, cur, cs).value.Found? {
      WalkIncreases(a, cur, cs);
    }
  }

  /** In every reachable state, for every path: after an unlink the path that led to the entry
      is missing it, paths that led through it are not found, and all others lead where they
      did; calls on the inode find nothing. */
  lemma UnlinkedPaths(ops: seq<Op>, dir: nat, name: string, path: string, off: nat, n: nat, buf: Data)
    requires Has(Run(EMPTY, ops).0, dir, name)
    ensures var a := Run(EMPTY, ops).0;
            var b := Step(a, Unlink(dir, name)).0;
            var gone := a.files[dir].children[name];
            && Step(b, Read(gone, off, n)).1 == Failed("enoent")
            && Step(b, Write(gone, off, buf)).1 == Failed("enoent")
            && Step(b, Truncate(gone, n)).1 == Failed("enoent")
            && LookupSpec(b, path)
               == if !Takes(a.files, 0, Components(path), dir, name) then LookupSpec(a, path)
                  else if LookupSpec(a, path) == Ok(Found(gone, dir, name)) then Ok(Missing(dir, name))
                  else Err("enoent")
  {
    EveryRunKeepsTree(ops);
    var a := Run(EMPTY, ops).0;
    var b := Step(a, Unlink(dir, name)).0;
    UnlinkRemoves(a, b, dir, name);
    assert Entry(a.files, dir, name, a.files[dir].children[name]);
    if Components(path) != [] {
      WalkAfterUnlink(a, b, dir, name, 0, Components(path));
    }
  }

  // ---- data -----------------------------------------------------------------

  /** When the data calls succeed, what they report, and that a failed call, a read, a
      synchronisation and an injected fault change nothing. */
  lemma DataCallsExact(a: AFS, ino: nat, off: nat, n: nat, buf: Data)
    ensures var out := Step(a, Write(ino, off, buf)).1;
            && (out == Count(|buf|) <==> IsFile(a, ino))
            && (out == Failed("eisdir") <==> IsDir(a, ino))
            && (out == Failed("enoent") <==> ino !in a.files)
            && (!IsFile(a, ino) ==> Step(a, Write(ino, off, buf)).0 == a)
    ensures var (b, out) := Step(a, Read(ino, off, n));
            && b == a
            && (out.Bytes? <==> IsFile(a, ino))
            && (out == Failed("eisdir") <==> IsDir(a, ino))
            && (out == Failed("enoent") <==> ino !in a.files)
            && (out.Bytes? ==> |out.data| <= n && off + |out.data| <= Max(off, a.files[ino].size))
    ensures var (b, out) := Step(a, Truncate(ino, n));
            && (out == Done <==> ino in a.files)
            && (ino in a.files ==> b.files[ino].size == n)
            && (ino !in a.files ==> out == Failed("enoent") && b == a)
    ensures Step(a, Sync) == (a, Done) && Step(a, Inject(n)) == (a, Done)
  {
    if IsFile(a, ino) {
      SliceBounds(a.files[ino].extent, off, Min(off + n, a.files[ino].size));
    }
  }

  lemma SliceBounds(e: Data, lo: nat, hi: nat)
    ensures |Slice(e, lo, hi)| == (if lo < Min(hi, |e|) then Min(hi, |e|) - lo else 0)
  {
  }
}
