/** The inode namespace: path lookup, and the tree every run keeps. */
module Namespace {
  import opened Common
  import opened BlockCache
  import opened Files
  import opened SimpleFS
  import opened Paths

  // ---- lookup ---------------------------------------------------------------

  /** `Missing` is the code's `ino == usize::MAX`: the parent exists, the entry does not. */
  datatype Hit = Found(ino: nat, parent: nat, name: string) | Missing(parent: nat, name: string)

  /** Follow components from directory `cur`. */
  function Walk(files: map<nat, AFile>, cur: nat, cs: seq<string>): Result<Hit>
    requires cs != []
    decreases |cs|
  {
    if cur !in files then Err("enoent")
    else if files[cur].kind != Directory then Err("enotdir")
    else if |cs| == 1 then
      if cs[0] in files[cur].children then Ok(Found(files[cur].children[cs[0]], cur, cs[0]))
      else Ok(Missing(cur, cs[0]))
    else if cs[0] in files[cur].children then Walk(files, files[cur].children[cs[0]], cs[1..])
    else Err("enoent")
  }

  function LookupSpec(a: AFS, path: string): Result<Hit> {
    if path == [] then Err("enoent")
    else if Components(path) == [] then Ok(Found(0, 0, ""))
    else Walk(a.files, 0, Components(path))
  }

  method Lookup(fs: FileSystem, path: string, ghost cache: Cache, ghost disk: Disk) returns (r: Result<Hit>)
    requires fs.Valid(cache, disk)
    ensures r == LookupSpec(fs.Abs(cache, disk), path)
  {
    if path == [] {
      return Err("enoent");
    }
    var cs := Components(path);
    if cs == [] {
      return Ok(Found(0, 0, ""));
    }
    ghost var files := fs.Abs(cache, disk).files;
    var cur, i := 0, 0;
    while i < |cs|
      invariant 0 <= i < |cs|
      invariant Walk(files, cur, cs[i..]) == Walk(files, 0, cs)
    {
      if cur !in fs.inodes {
        return Err("enoent");
      }
      if fs.inodes[cur].kind != Directory {
        return Err("enotdir");
      }
      var children := fs.inodes[cur].children;
      if i == |cs| - 1 {
        if cs[i] in children {
          return Ok(Found(children[cs[i]], cur, cs[i]));
        } else {
          return Ok(Missing(cur, cs[i]));
        }
      } else if cs[i] in children {
        assert cs[i..][1..] == cs[i + 1..];
        cur := children[cs[i]];
      } else {
        return Err("enoent");
      }
      i := i + 1;
    }
  }

  /** Following the entries named `cs` leads through the inodes `chain`. */
  ghost predicate Chain(files: map<nat, AFile>, chain: seq<nat>, cs: seq<string>) {
    && |chain| == |cs| + 1
    && forall i :: 0 <= i < |cs| ==> Link(files, chain, cs, i)
  }

  ghost predicate Link(files: map<nat, AFile>, chain: seq<nat>, cs: seq<string>, i: nat)
    requires i < |cs| && |chain| == |cs| + 1
  {
    Follows(files, chain[i], cs[i], chain[i + 1])
  }

  predicate HasEntry(files: map<nat, AFile>, d: nat, name: string) {
    d in files && files[d].kind == Directory && name in files[d].children
  }

  ghost predicate Follows(files: map<nat, AFile>, d: nat, name: string, n: nat) {
    HasEntry(files, d, name) && files[d].children[name] == n
  }

  /** What a walk finds, said without walking: it follows the first names, in order, as far as
      they are entries of directories, and its result is what stands there. */
  lemma {:induction false} WalkStops(files: map<nat, AFile>, cur: nat, cs: seq<string>) returns (chain: seq<nat>)
    requires cs != []
    ensures 0 < |chain| <= |cs| && chain[0] == cur && Chain(files, chain, cs[..|chain| - 1])
    ensures var i := |chain| - 1;
            var at, last := chain[i], i == |cs| - 1;
            Walk(files, cur, cs)
            == if at !in files then Err("enoent")
               else if files[at].kind != Directory then Err("enotdir")
               else if cs[i] in files[at].children && last then Ok(Found(files[at].children[cs[i]], at, cs[i]))
               else if last then Ok(Missing(at, cs[i]))
               else Err("enoent")
    ensures |chain| < |cs| ==> !HasEntry(files, chain[|chain| - 1], cs[|chain| - 1])
    decreases |cs|
  {
    if |cs| > 1 && cur in files && files[cur].kind == Directory && cs[0] in files[cur].children {
      var rest := WalkStops(files, files[cur].children[cs[0]], cs[1..]);
      chain := [cur] + rest;
      ChainCons(files, cur, rest, cs);
    } else {
      chain := [cur];
    }
  }

  lemma ChainCons(files: map<nat, AFile>, cur: nat, rest: seq<nat>, cs: seq<string>)
    requires 0 < |rest| < |cs| && Follows(files, cur, cs[0], rest[0])
    requires Chain(files, rest, cs[1..][..|rest| - 1])
    ensures Chain(files, [cur] + rest, cs[..|rest|])
  {
    forall i: nat | i < |rest|
      ensures Link(files, [cur] + rest, cs[..|rest|], i)
    {
      if i > 0 {
        assert Link(files, rest, cs[1..][..|rest| - 1], i - 1);
      }
    }
  }

  /** A lookup of words written in any way walks them from the root, first word first. */
  lemma LookupWalks(a: AFS, lead: nat, cs: seq<string>, gaps: seq<nat>)
    requires Spelling(cs, gaps) && Slashes(lead) + Spelled(cs, gaps) != []
    ensures LookupSpec(a, Slashes(lead) + Spelled(cs, gaps))
         == if cs == [] then Ok(Found(0, 0, "")) else Walk(a.files, 0, cs)
  {
    SpelledComponents(lead, cs, gaps);
  }

  // ---- the tree -------------------------------------------------------------

  ghost predicate Entry(files: map<nat, AFile>, d: nat, name: string, n: nat) {
    d in files && name in files[d].children && files[d].children[name] == n
  }

  /** Entries name existing inodes with a larger number than their directory, and no
      inode has two entries. */
  ghost predicate Tree(a: AFS) {
    && 0 in a.files && a.files[0].kind == Directory
    && (forall n :: n in a.files ==> n < a.nextIno)
    && (forall d, name, n :: Entry(a.files, d, name, n) ==> n in a.files && d < n)
    && (forall d, name, d', name', n :: Entry(a.files, d, name, n) && Entry(a.files, d', name', n)
          ==> d == d' && name == name')
  }

  lemma CreateTree(a: AFS, dir: nat, name: string, kind: Kind)
    requires Tree(a)
    ensures Tree(Create(a, dir, name, kind).0)
  {
    var b := Create(a, dir, name, kind).0;
    forall d, nm, n | Entry(b.files, d, nm, n)
      ensures Entry(a.files, d, nm, n) || (d == dir && nm == name && n == a.nextIno)
    {
    }
  }

  lemma RemoveTree(a: AFS, dir: nat, name: string)
    requires Tree(a)
    ensures Tree(Remove(a, dir, name).0)
  {
    var b := Remove(a, dir, name).0;
    if Remove(a, dir, name).1 == Done {
      var target := a.files[dir].children[name];
      assert Entry(a.files, dir, name, target);
      forall d, nm, n | Entry(b.files, d, nm, n)
        ensures Entry(a.files, d, nm, n) && n != target
      {
        assert Entry(a.files, d, nm, n);
      }
    }
  }

  lemma StepTree(a: AFS, op: Op)
    requires Tree(a)
    ensures Tree(Step(a, op).0)
  {
    match op
    case CreateFile(dir, name) => CreateTree(a, dir, name, File);
    case CreateDir(dir, name) => CreateTree(a, dir, name, Directory);
    case Unlink(dir, name) => RemoveTree(a, dir, name);
    case Read(_, _, _) =>
    case Write(ino, off, buf) => SameEntriesTree(a, Step(a, op).0);
    case Truncate(ino, size) => SameEntriesTree(a, Step(a, op).0);
    case Sync =>
    case Inject(_) =>
  }

  lemma SameEntriesTree(a: AFS, b: AFS)
    requires Tree(a) && b.nextIno == a.nextIno && b.files.Keys == a.files.Keys
    requires forall n :: n in a.files ==>
               b.files[n].children == a.files[n].children && b.files[n].kind == a.files[n].kind
    ensures Tree(b)
  {
    forall d, nm, n | Entry(b.files, d, nm, n)
      ensures Entry(a.files, d, nm, n)
    {
    }
  }

  /** Every run from an empty file system keeps a tree. */
  lemma {:induction false} EveryRunKeepsTree(ops: seq<Op>)
    ensures Tree(Run(EMPTY, ops).0)
  {
    if ops != [] {
      EveryRunKeepsTree(ops[..|ops| - 1]);
      StepTree(Run(EMPTY, ops[..|ops| - 1]).0, ops[|ops| - 1]);
    }
  }

  // ---- consequences ---------------------------------------------------------

  /** Following entries strictly increases the inode number: no path returns to where
      it has been, so there are no cycles. */
  lemma {:induction false} WalkIncreases(a: AFS, cur: nat, cs: seq<string>)
    requires Tree(a) && cs != [] && Walk(a.files, cur, cs).Ok? && Walk(a.files, cur, cs).value.Found?
    ensures cur < Walk(a.files, cur, cs).value.ino && Walk(a.files, cur, cs).value.ino in a.files
    ensures var h := Walk(a.files, cur, cs).value; Entry(a.files, h.parent, h.name, h.ino) && cur <= h.parent
    decreases |cs|
  {
    var next := a.files[cur].children[cs[0]];
    assert Entry(a.files, cur, cs[0], next);
    if |cs| > 1 {
      WalkIncreases(a, next, cs[1..]);
    }
  }

  /** The walk of a path reaches its parent by the path without its last component. */
  lemma {:induction false} WalkParent(files: map<nat, AFile>, cur: nat, cs: seq<string>)
    requires |cs| > 1 && Walk(files, cur, cs).Ok? && Walk(files, cur, cs).value.Found?
    ensures var h := Walk(files, cur, cs).value;
            var r := Walk(files, cur, cs[..|cs| - 1]);
            && h.name == cs[|cs| - 1]
            && r.Ok? && r.value.Found? && r.value.ino == h.parent
    decreases |cs|
  {
    var next := files[cur].children[cs[0]];
    if |cs| > 2 {
      WalkParent(files, next, cs[1..]);
      assert cs[..|cs| - 1][1..] == cs[1..][..|cs| - 2];
    }
  }

  /** Two component lists that resolve to one inode are the same list. */
  lemma {:induction false} PathsAreUnique(a: AFS, cs: seq<string>, cs': seq<string>)
    requires Tree(a) && cs != [] && cs' != []
    requires Walk(a.files, 0, cs).Ok? && Walk(a.files, 0, cs).value.Found?
    requires Walk(a.files, 0, cs').Ok? && Walk(a.files, 0, cs').value.Found?
    requires Walk(a.files, 0, cs).value.ino == Walk(a.files, 0, cs').value.ino
    ensures cs == cs'
    decreases |cs|
  {
    WalkIncreases(a, 0, cs);
    WalkIncreases(a, 0, cs');
    var n, n' := |cs| - 1, |cs'| - 1;
    if n > 0 { WalkParent(a.files, 0, cs); }
    if n' > 0 { WalkParent(a.files, 0, cs'); }
    if n > 0 && n' > 0 {
      PathsAreUnique(a, cs[..n], cs'[..n']);
    } else if n > 0 {
      WalkIncreases(a, 0, cs[..n]);
    } else if n' > 0 {
      WalkIncreases(a, 0, cs'[..n']);
    }
    assert cs == cs[..n] + [cs[n]] && cs' == cs'[..n'] + [cs'[n']];
  }

  /** A walk that found something still finds it after a create in a free place; the
      walk that found the place free now finds the new inode. */
  lemma {:induction false} WalkAfterCreate(a: AFS, b: AFS, dir: nat, name: string, kind: Kind,
                                           cur: nat, cs: seq<string>)
    requires Tree(a) && cur in a.files && cs != []
    requires dir in a.files && a.files[dir].kind == Directory && name !in a.files[dir].children
    requires b == Create(a, dir, name, kind).0
    ensures Walk(a.files, cur, cs).Ok? && Walk(a.files, cur, cs).value.Found?
            ==> Walk(b.files, cur, cs) == Walk(a.files, cur, cs)
    ensures Walk(a.files, cur, cs) == Ok(Missing(dir, name))
            ==> Walk(b.files, cur, cs) == Ok(Found(a.nextIno, dir, name))
    decreases |cs|
  {
    if cs[0] in a.files[cur].children {
      assert Entry(a.files, cur, cs[0], a.files[cur].children[cs[0]]);
      assert b.files[cur].children[cs[0]] == a.files[cur].children[cs[0]];
      if |cs| > 1 {
        WalkAfterCreate(a, b, dir, name, kind, a.files[cur].children[cs[0]], cs[1..]);
      }
    }
  }

  lemma {:induction false} MissingMeansFree(files: map<nat, AFile>, cur: nat, cs: seq<string>)
    requires cs != [] && Walk(files, cur, cs).Ok? && Walk(files, cur, cs).value.Missing?
    ensures var h := Walk(files, cur, cs).value;
            h.parent in files && files[h.parent].kind == Directory && h.name !in files[h.parent].children
    decreases |cs|
  {
    if |cs| > 1 {
      MissingMeansFree(files, files[cur].children[cs[0]], cs[1..]);
    }
  }

  /** In every reachable state: creating at the place a failed lookup reports makes that
      path resolve to the new inode and leaves every path that resolved as it was. */
  lemma CreateAtLookup(ops: seq<Op>, path: string, kind: Kind, other: string)
    requires var r := LookupSpec(Run(EMPTY, ops).0, path); r.Ok? && r.value.Missing?
    ensures var a := Run(EMPTY, ops).0;
            var h := LookupSpec(a, path).value;
            var (b, out) := Create(a, h.parent, h.name, kind);
            && out == Inode(a.nextIno)
            && LookupSpec(b, path) == Ok(Found(a.nextIno, h.parent, h.name))
            && (LookupSpec(a, other).Ok? && LookupSpec(a, other).value.Found?
                ==> LookupSpec(b, other) == LookupSpec(a, other))
  {
    EveryRunKeepsTree(ops);
    var a := Run(EMPTY, ops).0;
    var h := LookupSpec(a, path).value;
    MissingMeansFree(a.files, 0, Components(path));
    var b := Create(a, h.parent, h.name, kind).0;
    WalkAfterCreate(a, b, h.parent, h.name, kind, 0, Components(path));
    if Components(other) != [] {
      WalkAfterCreate(a, b, h.parent, h.name, kind, 0, Components(other));
    }
  }
}
