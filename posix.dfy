/** An abstract POSIX filesystem as seen through Node's `fs/promises`: a map from
    resolved absolute paths to nodes, and the calls the directory controller makes
    (stat, readdir, mkdir, open with O_EXCL, unlink, rmdir, rm, copyFile, cp), each
    as a function from the old tree to either an errno or the new tree. */
module Posix {

  /** A resolved absolute path, one name per segment; [] is the filesystem root. */
  type Path = seq<string>

  datatype Node = Dir | File(content: string)

  type Tree = map<Path, Node>

  /** The error codes these calls report: errno values, plus the two codes
      (ERR_FS_CP_EINVAL, ERR_FS_CP_DIR_TO_NON_DIR / ERR_FS_CP_NON_DIR_TO_DIR) that `fs.cp` raises itself. */
  datatype Errno = ENOENT | ENOTDIR | EEXIST | EISDIR | ENOTEMPTY | EBUSY | CpInvalid | CpKindMismatch

  datatype Result<T> = Ok(value: T) | Err(errno: Errno)

  /** `path.dirname`: the parent directory; the root is its own parent. */
  function Dirname(p: Path): (d: Path)
    ensures p == [] ==> d == []
    ensures p != [] ==> d < p && |d| == |p| - 1 && d + [p[|p| - 1]] == p
  {
    if p == [] then [] else p[..|p| - 1]
  }

  /** The root is a directory and the parent of every other entry is a directory. */
  ghost predicate WellFormed(t: Tree)
  {
    && [] in t && t[[]] == Dir
    && forall q {:trigger Dirname(q)} :: q in t && q != [] ==> Dirname(q) in t && t[Dirname(q)] == Dir
  }

  /** `stat`: resolving a path one segment at a time. A missing segment below a
      directory is ENOENT; a segment below a file is ENOTDIR. */
  function Lookup(t: Tree, p: Path): (r: Result<Node>)
    ensures r.Ok? <==> p in t
    ensures r.Ok? ==> r.value == t[p]
    ensures r.Err? ==> r.errno == ENOENT || r.errno == ENOTDIR
    decreases |p|
  {
    if p in t then Ok(t[p])
    else if p == [] then Err(ENOENT)
    else match Lookup(t, Dirname(p))
      case Ok(Dir) => Err(ENOENT)
      case Ok(File(_)) => Err(ENOTDIR)
      case Err(e) => Err(e)
  }

  /** Some proper prefix of `p` names a file. */
  ghost predicate BlockedByFile(t: Tree, p: Path)
  {
    exists k :: 0 <= k < |p| && p[..k] in t && t[p[..k]].File?
  }

  /** Every proper prefix of an entry of a well-formed tree is a directory. */
  lemma {:induction false} AncestorsAreDirs(t: Tree, p: Path, k: nat)
    requires WellFormed(t) && p in t && k < |p|
    ensures p[..k] in t && t[p[..k]] == Dir
    decreases |p|
  {
    var d := Dirname(p);
    if k == |d| {
      assert p[..k] == d;
    } else {
      AncestorsAreDirs(t, d, k);
      assert d[..k] == p[..k];
    }
  }

  /** Every entry below `p` in a well-formed tree implies `p` itself is an entry. */
  lemma AncestorPresent(t: Tree, p: Path, q: Path)
    requires WellFormed(t) && q in t && p <= q
    ensures p in t
  {
    if p != q {
      AncestorsAreDirs(t, q, |p|);
      assert q[..|p|] == p;
    }
  }

  /** `stat` reports ENOTDIR exactly when the path runs through a file. */
  lemma {:induction false} LookupNotDirectory(t: Tree, p: Path)
    requires WellFormed(t)
    ensures Lookup(t, p) == Err(ENOTDIR) <==> BlockedByFile(t, p)
    decreases |p|
  {
    if p in t {
      forall k | 0 <= k < |p| ensures p[..k] in t && t[p[..k]] == Dir {
        AncestorsAreDirs(t, p, k);
      }
    } else {
      var d := Dirname(p);
      LookupNotDirectory(t, d);
      if d in t {
        if t[d] == Dir {
          forall k | 0 <= k < |p| ensures p[..k] in t && t[p[..k]] == Dir {
            if k == |d| {
              assert p[..k] == d;
            } else {
              AncestorsAreDirs(t, d, k);
              assert d[..k] == p[..k];
            }
          }
        } else {
          assert p[..|d|] == d;
        }
      } else {
        if BlockedByFile(t, p) {
          var k :| 0 <= k < |p| && p[..k] in t && t[p[..k]].File?;
          assert k != |d| by { assert p[..|d|] == d; }
          assert d[..k] == p[..k];
        }
        if BlockedByFile(t, d) {
          var k :| 0 <= k < |d| && d[..k] in t && t[d[..k]].File?;
          assert d[..k] == p[..k];
        }
      }
    }
  }

  /** A path below a file cannot be reached: ENOTDIR. */
  lemma FileAbove(t: Tree, f: Path, p: Path)
    requires WellFormed(t)
    ensures f in t && t[f].File? && f < p ==> Lookup(t, p) == Err(ENOTDIR)
  {
    if f in t && t[f].File? && f < p {
      LookupNotDirectory(t, p);
      assert p[..|f|] == f;
    }
  }

  /** A path whose ancestors are all present is missing only with ENOENT. */
  lemma LookupBelowDirectory(t: Tree, p: Path)
    requires WellFormed(t) && p != [] && Dirname(p) in t && t[Dirname(p)] == Dir
    ensures Lookup(t, p) == (if p in t then Ok(t[p]) else Err(ENOENT))
  {
  }

  /** The names of the immediate children of `p`. */
  function Children(t: Tree, p: Path): set<string>
  {
    set q | q in t && q != [] && Dirname(q) == p :: q[|q| - 1]
  }

  lemma ChildListed(t: Tree, q: Path)
    requires q in t && q != []
    ensures q[|q| - 1] in Children(t, Dirname(q))
  {
  }

  /** Removing an entry that has no children keeps a tree well formed. */
  lemma RemoveLeafWellFormed(t: Tree, p: Path)
    requires WellFormed(t) && p in t && p != [] && Children(t, p) == {}
    ensures WellFormed(t - {p})
  {
    forall q | q in t && q != [] ensures Dirname(q) != p {
      ChildListed(t, q);
    }
  }

  /** `readdir`: the names of a directory's children. */
  function ReadDir(t: Tree, p: Path): (r: Result<set<string>>)
    ensures r.Ok? <==> p in t && t[p] == Dir
    ensures r.Ok? ==> forall n :: n in r.value <==> p + [n] in t
    ensures r.Err? ==> r.errno == (if p in t then ENOTDIR else Lookup(t, p).errno)
  {
    match Lookup(t, p)
      case Ok(Dir) =>
        var names := Children(t, p);
        assert forall n :: n in names <==> p + [n] in t by {
          forall n ensures n in names <==> p + [n] in t {
            if p + [n] in t {
              assert Dirname(p + [n]) == p;
            }
          }
        }
        Ok(names)
      case Ok(File(_)) => Err(ENOTDIR)
      case Err(e) => Err(e)
  }

  /** Creating one new entry exclusively: `mkdir` without `recursive`, or `open`
      with O_CREAT | O_EXCL (the `wx` flag). */
  function Create(t: Tree, p: Path, n: Node): (r: Result<Tree>)
    requires WellFormed(t)
    ensures r.Ok? <==> p !in t && Dirname(p) in t && t[Dirname(p)] == Dir
    ensures r.Ok? ==> WellFormed(r.value) && r.value == t[p := n]
    ensures r.Err? ==> (r.errno == EEXIST <==> p in t)
    ensures r.Err? && p !in t ==> r.errno == (if Dirname(p) in t then ENOTDIR else Lookup(t, Dirname(p)).errno)
  {
    if p in t then Err(EEXIST)
    else match Lookup(t, Dirname(p))
      case Ok(Dir) => Ok(t[p := n])
      case Ok(File(_)) => Err(ENOTDIR)
      case Err(e) => Err(e)
  }

  /** The directories `mkdir -p` adds: every missing prefix of `p`, `p` included. */
  function AddAncestors(t: Tree, p: Path): (r: Tree)
    requires WellFormed(t)
    requires Lookup(t, p) == Ok(Dir) || Lookup(t, p) == Err(ENOENT)
    ensures WellFormed(r) && p in r && r[p] == Dir
    ensures forall q :: q in t ==> q in r && r[q] == t[q]
    ensures forall q :: q in r && q !in t ==> q <= p && r[q] == Dir
    decreases |p|
  {
    if p in t then t
    else
      var r := AddAncestors(t, Dirname(p));
      r[p := Dir]
  }

  /** `mkdir(p, { recursive: true })`: succeeds when `p` is a directory already,
      otherwise creates it with its missing ancestors; a file at `p` is EEXIST and
      a file above it ENOTDIR. */
  function MakeDirs(t: Tree, p: Path): (r: Result<Tree>)
    requires WellFormed(t)
    ensures r.Ok? <==> Lookup(t, p) == Ok(Dir) || Lookup(t, p) == Err(ENOENT)
    ensures r.Ok? ==> WellFormed(r.value) && p in r.value && r.value[p] == Dir
    ensures r.Ok? ==> forall q :: q in t ==> q in r.value && r.value[q] == t[q]
    ensures r.Ok? ==> forall q :: q in r.value && q !in t ==> q <= p && r.value[q] == Dir
    ensures r.Err? ==> r.errno == (if p in t then EEXIST else ENOTDIR)
  {
    match Lookup(t, p)
      case Ok(Dir) => Ok(t)
      case Ok(File(_)) => Err(EEXIST)
      case Err(e) => if e == ENOENT then Ok(AddAncestors(t, p)) else Err(e)
  }

  /** `unlink`: removes a file; a directory is EISDIR. */
  function Unlink(t: Tree, p: Path): (r: Result<Tree>)
    requires WellFormed(t)
    ensures r.Ok? <==> p in t && t[p].File?
    ensures r.Ok? ==> WellFormed(r.value) && r.value == t - {p}
    ensures r.Err? ==> r.errno == (if p in t then EISDIR else Lookup(t, p).errno)
  {
    match Lookup(t, p)
      case Ok(File(_)) => Ok(t - {p})
      case Ok(Dir) => Err(EISDIR)
      case Err(e) => Err(e)
  }

  /** `rmdir`: removes an empty directory other than the root. */
  function Rmdir(t: Tree, p: Path): (r: Result<Tree>)
    requires WellFormed(t)
    ensures r.Ok? <==> p in t && t[p] == Dir && p != [] && Children(t, p) == {}
    ensures r.Ok? ==> WellFormed(r.value) && r.value == t - {p}
    ensures r.Err? && p in t && t[p] == Dir && p != [] ==> r.errno == ENOTEMPTY
    ensures p in t && t[p].File? ==> r == Err(ENOTDIR)
  {
    match Lookup(t, p)
      case Ok(File(_)) => Err(ENOTDIR)
      case Ok(Dir) =>
        if p == [] then Err(EBUSY)
        else if Children(t, p) != {} then Err(ENOTEMPTY)
        else
          RemoveLeafWellFormed(t, p);
          Ok(t - {p})
      case Err(e) => Err(e)
  }

  /** The tree without `p` and everything below it. */
  function Prune(t: Tree, p: Path): (r: Tree)
    ensures forall q :: q in r <==> q in t && !(p <= q)
    ensures forall q :: q in r ==> r[q] == t[q]
  {
    map q | q in t && !(p <= q) :: t[q]
  }

  /** A proper prefix of a path is a prefix of its parent. */
  lemma PrefixOfParent(a: Path, p: Path)
    ensures a < p ==> a <= Dirname(p)
  {
    if a < p {
      assert Dirname(p)[..|a|] == p[..|a|];
    }
  }

  /** Being a prefix is transitive. */
  lemma PrefixTransitive(a: Path, b: Path, c: Path)
    ensures a <= b && b <= c ==> a <= c
  {
    if a <= b && b <= c {
      assert c[..|a|] == b[..|a|];
    }
  }

  /** Two prefixes of the same path are prefixes of one another. */
  lemma PrefixesComparable(a: Path, b: Path, q: Path)
    requires a <= q && b <= q
    ensures a <= b || b <= a
  {
    if |a| <= |b| {
      assert b[..|a|] == q[..|a|];
    } else {
      assert a[..|b|] == q[..|b|];
    }
  }

  /** An entry without children, and in particular a file, has nothing below it. */
  lemma NothingBelowLeaf(t: Tree, p: Path)
    requires WellFormed(t) && p in t && (t[p].File? || Children(t, p) == {})
    ensures forall q :: q in t && p <= q ==> q == p
  {
    forall q | q in t && p <= q ensures q == p {
      if p < q {
        var c := q[..|p| + 1];
        AncestorPresent(t, c, q);
        assert Dirname(c) == p;
        ChildListed(t, c);
        assert false;
      }
    }
  }

  /** Such an entry is its own whole subtree: pruning it removes that one entry. */
  lemma LeafPrune(t: Tree, p: Path)
    requires WellFormed(t) && p in t && (t[p].File? || Children(t, p) == {})
    ensures Prune(t, p) == t - {p}
  {
    NothingBelowLeaf(t, p);
    PruneSingle(t, p);
  }

  lemma PruneSingle(t: Tree, p: Path)
    requires forall q :: q in t && p <= q ==> q == p
    ensures Prune(t, p) == t - {p}
  {
    var r := Prune(t, p);
    assert r.Keys == (t - {p}).Keys;
  }

  /** `rm(p, { recursive: true, force })`: removes `p` with its whole subtree; with
      `force`, a missing path is not an error. The root cannot be removed. */
  function Remove(t: Tree, p: Path, force: bool): (r: Result<Tree>)
    requires WellFormed(t)
    ensures r.Ok? <==> (p in t && p != []) || (force && Lookup(t, p) == Err(ENOENT))
    ensures r.Ok? ==> WellFormed(r.value) && r.value == Prune(t, p)
    ensures r.Err? ==> r.errno == (if p == [] then EBUSY else Lookup(t, p).errno)
  {
    match Lookup(t, p)
      case Err(e) =>
        if force && e == ENOENT then
          assert forall q :: q in t ==> !(p <= q) by {
            forall q | q in t && p <= q ensures false {
              AncestorPresent(t, p, q);
            }
          }
          Ok(t)
        else Err(e)
      case Ok(_) =>
        if p == [] then Err(EBUSY)
        else
          var r := Prune(t, p);
          Ok(r)
  }

  /** `copyFile(src, dest)`: `src` must be a file; `dest` is created or overwritten,
      and its parent directory must already exist. */
  function CopyFile(t: Tree, src: Path, dest: Path): (r: Result<Tree>)
    requires WellFormed(t)
    ensures r.Ok? <==> && src in t && t[src].File?
                       && ((dest in t && t[dest].File?) || (dest !in t && Dirname(dest) in t && t[Dirname(dest)] == Dir))
    ensures r.Ok? ==> WellFormed(r.value) && r.value == t[dest := t[src]]
    ensures r == Err(ENOENT) <==> || Lookup(t, src) == Err(ENOENT)
                                  || (src in t && t[src].File? && Lookup(t, Dirname(dest)) == Err(ENOENT))
  {
    match Lookup(t, src)
      case Err(e) => Err(e)
      case Ok(Dir) => Err(EISDIR)
      case Ok(File(c)) =>
        match Lookup(t, dest)
          case Ok(Dir) => Err(EISDIR)
          case Ok(File(_)) => Ok(t[dest := File(c)])
          case Err(e) =>
            if Dirname(dest) in t && t[Dirname(dest)] == Dir then Ok(t[dest := File(c)]) else Err(e)
  }

  /** Where `q` lands when the subtree at `from` is copied to `to`; a path outside
      that subtree stays where it is. */
  function Rebase(q: Path, from: Path, to: Path): (r: Path)
    ensures from <= q ==> to <= r && |r| == |to| + |q| - |from| && r[|to|..] == q[|from|..]
  {
    if from <= q then to + q[|from|..] else q
  }

  lemma RebaseInjective(q1: Path, q2: Path, from: Path, to: Path)
    requires from <= q1 && from <= q2 && Rebase(q1, from, to) == Rebase(q2, from, to)
    ensures q1 == q2
  {
    assert q1[|from|..] == Rebase(q1, from, to)[|to|..];
    assert q2[|from|..] == Rebase(q2, from, to)[|to|..];
    assert q1 == from + q1[|from|..];
    assert q2 == from + q2[|from|..];
  }

  /** The subtree at `src` rebased onto `dest`. */
  function Relocated(t: Tree, src: Path, dest: Path): Tree
  {
    assert forall q1, q2 :: src <= q1 && src <= q2 && Rebase(q1, src, dest) == Rebase(q2, src, dest) ==> q1 == q2 by {
      forall q1, q2 | src <= q1 && src <= q2 && Rebase(q1, src, dest) == Rebase(q2, src, dest) ensures q1 == q2 {
        RebaseInjective(q1, q2, src, dest);
      }
    }
    map q | q in t && src <= q :: Rebase(q, src, dest) := t[q]
  }

  /** The subtree at `src` laid over `dest`: each copied entry replaces what was at
      its place, and everything else stays (the merge `fs.cp` does into an existing
      directory). The copy is taken from the tree as it was before the call. */
  function Graft(t: Tree, src: Path, dest: Path): Tree
  {
    t + Relocated(t, src, dest)
  }

  /** Rebasing from `from` to `to` and back gives the path one started with. */
  lemma RebaseBack(q: Path, from: Path, to: Path)
    requires from <= q
    ensures Rebase(Rebase(q, from, to), to, from) == q
  {
    assert Rebase(q, from, to)[|to|..] == q[|from|..];
  }

  /** Rebasing commutes with taking the parent, below the rebased root. */
  lemma RebaseDirname(q: Path, from: Path, to: Path)
    requires from < q
    ensures from <= Dirname(q) && Rebase(Dirname(q), from, to) == Dirname(Rebase(q, from, to))
  {
    var r := Rebase(q, from, to);
    assert Dirname(q)[|from|..] == q[|from|..|q| - 1];
    assert r[..|r| - 1] == to + q[|from|..|q| - 1];
  }

  /** What a graft holds at one path: the copy of an entry below `src`, every old
      entry, and the old value wherever no copied entry landed. */
  lemma GraftAt(t: Tree, src: Path, dest: Path, q: Path)
    ensures q in t && src <= q ==> Rebase(q, src, dest) in Graft(t, src, dest) && Graft(t, src, dest)[Rebase(q, src, dest)] == t[q]
    ensures q in t ==> q in Graft(t, src, dest)
    ensures q in Graft(t, src, dest) && dest <= q && Rebase(q, dest, src) in t ==> Graft(t, src, dest)[q] == t[Rebase(q, dest, src)]
    ensures q in Graft(t, src, dest) && !(dest <= q && Rebase(q, dest, src) in t) ==> q in t && Graft(t, src, dest)[q] == t[q]
  {
    var c := Relocated(t, src, dest);
    if q in t && src <= q {
      var k := Rebase(q, src, dest);
      assert k in c;
      var q0 :| q0 in t && src <= q0 && k == Rebase(q0, src, dest) && c[k] == t[q0];
      RebaseInjective(q, q0, src, dest);
    }
    if q in c {
      var q0 :| q0 in t && src <= q0 && q == Rebase(q0, src, dest) && c[q] == t[q0];
      RebaseBack(q0, src, dest);
    }
    if dest <= q && Rebase(q, dest, src) in t {
      var q0 := Rebase(q, dest, src);
      RebaseBack(q, dest, src);
      assert q in c;
      var q1 :| q1 in t && src <= q1 && q == Rebase(q1, src, dest) && c[q] == t[q1];
      RebaseInjective(q0, q1, src, dest);
    }
  }

  /** The same, for every path at once. */
  lemma GraftFacts(t: Tree, src: Path, dest: Path)
    ensures forall q :: q in t && src <= q ==> Rebase(q, src, dest) in Graft(t, src, dest) && Graft(t, src, dest)[Rebase(q, src, dest)] == t[q]
    ensures forall q :: q in t ==> q in Graft(t, src, dest)
    ensures forall q :: q in Graft(t, src, dest) && dest <= q && Rebase(q, dest, src) in t ==> Graft(t, src, dest)[q] == t[Rebase(q, dest, src)]
    ensures forall q :: q in Graft(t, src, dest) && !(dest <= q && Rebase(q, dest, src) in t) ==> q in t && Graft(t, src, dest)[q] == t[q]
  {
    forall q ensures q in t && src <= q ==> Rebase(q, src, dest) in Graft(t, src, dest) && Graft(t, src, dest)[Rebase(q, src, dest)] == t[q] {
      GraftAt(t, src, dest, q);
    }
    forall q ensures q in t ==> q in Graft(t, src, dest) {
      GraftAt(t, src, dest, q);
    }
    forall q ensures q in Graft(t, src, dest) && dest <= q && Rebase(q, dest, src) in t ==> Graft(t, src, dest)[q] == t[Rebase(q, dest, src)] {
      GraftAt(t, src, dest, q);
    }
    forall q ensures q in Graft(t, src, dest) && !(dest <= q && Rebase(q, dest, src) in t) ==> q in t && Graft(t, src, dest)[q] == t[q] {
      GraftAt(t, src, dest, q);
    }
  }

  /** In a graft that lands below an existing directory, the parent of a copied
      entry is a directory. */
  lemma GraftParentOfCopy(t: Tree, src: Path, dest: Path, k: Path)
    requires WellFormed(t) && src in t
    requires Dirname(dest) in t && t[Dirname(dest)] == Dir
    requires dest <= k && Rebase(k, dest, src) in t && k != []
    ensures Dirname(k) in Graft(t, src, dest) && Graft(t, src, dest)[Dirname(k)] == Dir
  {
    var d := Dirname(k);
    if k == dest {
      GraftAt(t, src, dest, d);
    } else {
      var q0 := Rebase(k, dest, src);
      RebaseBack(k, dest, src);
      RebaseDirname(q0, src, dest);
      GraftAt(t, src, dest, Dirname(q0));
    }
  }

  /** When no copied entry meets an entry of the other kind, the parent of an
      entry the graft keeps is a directory. */
  lemma GraftParentOfKept(t: Tree, src: Path, dest: Path, k: Path)
    requires WellFormed(t) && !Clash(t, src, dest)
    requires k in t && k != []
    ensures Dirname(k) in Graft(t, src, dest) && Graft(t, src, dest)[Dirname(k)] == Dir
  {
    var d := Dirname(k);
    GraftAt(t, src, dest, d);
    if dest <= d && Rebase(d, dest, src) in t {
      var q1 := Rebase(d, dest, src);
      RebaseBack(d, dest, src);
      assert t[q1].Dir? == t[d].Dir?;
    }
  }

  /** Such a graft is a well-formed tree. */
  lemma GraftWellFormed(t: Tree, src: Path, dest: Path)
    requires WellFormed(t) && src in t
    requires Dirname(dest) in t && t[Dirname(dest)] == Dir
    requires !Clash(t, src, dest)
    ensures WellFormed(Graft(t, src, dest))
  {
    GraftAt(t, src, dest, []);
    if dest == [] {
      RebaseBack(src, src, dest);
      assert t[src].Dir? == t[[]].Dir?;
    }
    forall k | k in Graft(t, src, dest) && k != []
      ensures Dirname(k) in Graft(t, src, dest) && Graft(t, src, dest)[Dirname(k)] == Dir
    {
      GraftAt(t, src, dest, k);
      if dest <= k && Rebase(k, dest, src) in t {
        GraftParentOfCopy(t, src, dest, k);
      } else {
        GraftParentOfKept(t, src, dest, k);
      }
    }
  }

  /** Some entry of the copy would land on an entry of the other kind; seen from
      the destination, some entry below `dest` has a counterpart below `src` of
      the other kind. */
  predicate Clash(t: Tree, src: Path, dest: Path): (c: bool)
    ensures c <==> exists p :: p in t && dest <= p && Rebase(p, dest, src) in t && t[p].Dir? != t[Rebase(p, dest, src)].Dir?
  {
    ClashBothSides(t, src, dest);
    exists q :: q in t && src <= q && Rebase(q, src, dest) in t && t[q].Dir? != t[Rebase(q, src, dest)].Dir?
  }

  lemma ClashBothSides(t: Tree, src: Path, dest: Path)
    ensures (exists q :: q in t && src <= q && Rebase(q, src, dest) in t && t[q].Dir? != t[Rebase(q, src, dest)].Dir?)
        ==> (exists p :: p in t && dest <= p && Rebase(p, dest, src) in t && t[p].Dir? != t[Rebase(p, dest, src)].Dir?)
    ensures (exists p :: p in t && dest <= p && Rebase(p, dest, src) in t && t[p].Dir? != t[Rebase(p, dest, src)].Dir?)
        ==> (exists q :: q in t && src <= q && Rebase(q, src, dest) in t && t[q].Dir? != t[Rebase(q, src, dest)].Dir?)
  {
    if q :| q in t && src <= q && Rebase(q, src, dest) in t && t[q].Dir? != t[Rebase(q, src, dest)].Dir? {
      RebaseBack(q, src, dest);
      var p := Rebase(q, src, dest);
      assert p in t && dest <= p && Rebase(p, dest, src) in t && t[p].Dir? != t[Rebase(p, dest, src)].Dir?;
    }
    if p :| p in t && dest <= p && Rebase(p, dest, src) in t && t[p].Dir? != t[Rebase(p, dest, src)].Dir? {
      RebaseBack(p, dest, src);
      var q := Rebase(p, dest, src);
      assert q in t && src <= q && Rebase(q, src, dest) in t && t[q].Dir? != t[Rebase(q, src, dest)].Dir?;
    }
  }

  /** The parent of a path that does not run through a file can be made a directory. */
  lemma DirnameReachable(t: Tree, p: Path)
    requires WellFormed(t) && Lookup(t, p) != Err(ENOTDIR)
    ensures Lookup(t, Dirname(p)) == Ok(Dir) || Lookup(t, Dirname(p)) == Err(ENOENT)
  {
  }

  /** Grafting onto `t` with some missing ancestors of `dest` added as directories,
      seen from `t`, at one path. */
  lemma GraftOverGrownAt(t: Tree, b: Tree, src: Path, dest: Path, q: Path)
    requires WellFormed(t) && !(src <= dest)
    requires forall x :: x in t ==> x in b && b[x] == t[x]
    requires forall x :: x in b && x !in t ==> x <= Dirname(dest) && b[x] == Dir
    ensures q in t ==> q in Graft(b, src, dest)
    ensures q in t && src <= q ==> Rebase(q, src, dest) in Graft(b, src, dest) && Graft(b, src, dest)[Rebase(q, src, dest)] == t[q]
    ensures q in t && !(dest <= q) ==> Graft(b, src, dest)[q] == t[q]
    ensures q in Graft(b, src, dest) && q !in t ==> (q < dest && Graft(b, src, dest)[q] == Dir) || (dest <= q && Rebase(q, dest, src) in t)
    ensures q in t && !(dest <= q && Rebase(q, dest, src) in t) ==> Graft(b, src, dest)[q] == t[q]
  {
    GraftAt(b, src, dest, q);
    if q in t && dest <= q {
      var x := Rebase(q, dest, src);
      PrefixTransitive(src, x, Dirname(dest));
      PrefixTransitive(src, Dirname(dest), dest);
    }
  }

  /** The same, for every path at once. */
  lemma GraftOverGrown(t: Tree, b: Tree, src: Path, dest: Path)
    requires WellFormed(t) && !(src <= dest)
    requires forall x :: x in t ==> x in b && b[x] == t[x]
    requires forall x :: x in b && x !in t ==> x <= Dirname(dest) && b[x] == Dir
    ensures forall q :: q in t ==> q in Graft(b, src, dest)
    ensures forall q :: q in t && src <= q ==> Rebase(q, src, dest) in Graft(b, src, dest) && Graft(b, src, dest)[Rebase(q, src, dest)] == t[q]
    ensures forall q :: q in t && !(dest <= q) ==> Graft(b, src, dest)[q] == t[q]
    ensures forall q :: q in Graft(b, src, dest) && q !in t ==> (q < dest && Graft(b, src, dest)[q] == Dir) || (dest <= q && Rebase(q, dest, src) in t)
    ensures forall q :: q in t && !(dest <= q && Rebase(q, dest, src) in t) ==> Graft(b, src, dest)[q] == t[q]
  {
    forall q ensures q in t ==> q in Graft(b, src, dest) {
      GraftOverGrownAt(t, b, src, dest, q);
    }
    forall q ensures q in t && src <= q ==> Rebase(q, src, dest) in Graft(b, src, dest) && Graft(b, src, dest)[Rebase(q, src, dest)] == t[q] {
      GraftOverGrownAt(t, b, src, dest, q);
    }
    forall q ensures q in t && !(dest <= q) ==> Graft(b, src, dest)[q] == t[q] {
      GraftOverGrownAt(t, b, src, dest, q);
    }
    forall q ensures q in Graft(b, src, dest) && q !in t ==> (q < dest && Graft(b, src, dest)[q] == Dir) || (dest <= q && Rebase(q, dest, src) in t) {
      GraftOverGrownAt(t, b, src, dest, q);
    }
    forall q ensures q in t && !(dest <= q && Rebase(q, dest, src) in t) ==> Graft(b, src, dest)[q] == t[q] {
      GraftOverGrownAt(t, b, src, dest, q);
    }
  }

  /** A copy that is not onto itself, not of a directory into its own subtree, and
      not below a file, lands outside its source. */
  lemma OutsideSource(t: Tree, src: Path, dest: Path)
    requires WellFormed(t) && src in t && dest != src
    requires Lookup(t, dest) != Err(ENOTDIR)
    requires t[src].Dir? ==> !(src <= dest)
    ensures !(src <= dest)
  {
    FileAbove(t, src, dest);
  }

  /** What a copy that passed every check of `CopyTree` leaves behind. */
  lemma CopyTreeLands(t: Tree, src: Path, dest: Path)
    requires WellFormed(t) && src in t && !(src <= dest)
    requires Lookup(t, Dirname(dest)) == Ok(Dir) || Lookup(t, Dirname(dest)) == Err(ENOENT)
    requires !Clash(AddAncestors(t, Dirname(dest)), src, dest)
    ensures WellFormed(Graft(AddAncestors(t, Dirname(dest)), src, dest))
    ensures forall q :: q in t ==> q in Graft(AddAncestors(t, Dirname(dest)), src, dest)
    ensures forall q :: q in t && src <= q ==> Rebase(q, src, dest) in Graft(AddAncestors(t, Dirname(dest)), src, dest) && Graft(AddAncestors(t, Dirname(dest)), src, dest)[Rebase(q, src, dest)] == t[q]
    ensures forall q :: q in t && !(dest <= q) ==> Graft(AddAncestors(t, Dirname(dest)), src, dest)[q] == t[q]
    ensures forall q :: q in Graft(AddAncestors(t, Dirname(dest)), src, dest) && q !in t ==> (q < dest && Graft(AddAncestors(t, Dirname(dest)), src, dest)[q] == Dir) || (dest <= q && Rebase(q, dest, src) in t)
    ensures forall q :: q in t && !(dest <= q && Rebase(q, dest, src) in t) ==> Graft(AddAncestors(t, Dirname(dest)), src, dest)[q] == t[q]
  {
    var base := AddAncestors(t, Dirname(dest));
    GraftWellFormed(base, src, dest);
    GraftOverGrown(t, base, src, dest);
  }

  /** `fs.cp(src, dest, { recursive: true })` with its defaults (`force: true`, no
      filter). It fails when `src` and `dest` are the same entry, when a directory
      would be copied into its own subtree, and when a copied entry meets an entry
      of the other kind; otherwise it creates the missing ancestors of `dest` and
      lays the subtree at `src` over `dest`, replacing files and merging into
      directories that are already there. */
  function CopyTree(t: Tree, src: Path, dest: Path): (r: Result<Tree>)
    requires WellFormed(t)
    ensures r.Ok? ==> src in t && !(src <= dest) && WellFormed(r.value)
    ensures r.Ok? ==> forall q :: q in t ==> q in r.value
    ensures r.Ok? ==> forall q :: q in t && src <= q ==> Rebase(q, src, dest) in r.value && r.value[Rebase(q, src, dest)] == t[q]
    ensures r.Ok? ==> forall q :: q in t && !(dest <= q) ==> r.value[q] == t[q]
    ensures r.Ok? ==> forall q :: q in r.value && q !in t ==> (q < dest && r.value[q] == Dir) || (dest <= q && Rebase(q, dest, src) in t)
    ensures r.Ok? ==> forall q :: q in t && !(dest <= q && Rebase(q, dest, src) in t) ==> r.value[q] == t[q]
    ensures r == Err(ENOENT) <==> Lookup(t, src) == Err(ENOENT)
  {
    match Lookup(t, src)
      case Err(e) => Err(e)
      case Ok(n) =>
        var d := Lookup(t, dest);
        if d == Err(ENOTDIR) then Err(ENOTDIR)
        else if d.Ok? && dest == src then Err(CpInvalid)
        else if d.Ok? && n.Dir? != d.value.Dir? then Err(CpKindMismatch)
        else if n.Dir? && src <= dest then Err(CpInvalid)
        else
          DirnameReachable(t, dest);
          var base := AddAncestors(t, Dirname(dest));
          if Clash(base, src, dest) then Err(CpKindMismatch)
          else
            OutsideSource(t, src, dest);
            CopyTreeLands(t, src, dest);
            Ok(Graft(base, src, dest))
  }

  /** A copy by `fs.cp` leaves its source as it was, unless the destination is an
      ancestor of the source (the copy is then laid over the source itself). */
  lemma CopyTreeKeepsSource(t: Tree, src: Path, dest: Path)
    requires WellFormed(t) && CopyTree(t, src, dest).Ok? && !(dest <= src)
    ensures forall q :: q in t && src <= q ==> q in CopyTree(t, src, dest).value && CopyTree(t, src, dest).value[q] == t[q]
  {
    forall q | q in t && src <= q ensures !(dest <= q) {
      if dest <= q {
        PrefixesComparable(src, dest, q);
      }
    }
  }

  /** When neither of `src` and `dest` lies within the other, no copied entry
      lands inside the source. */
  lemma RebaseLeavesSource(q: Path, src: Path, dest: Path)
    requires src <= q && !(src <= dest) && !(dest <= src)
    ensures !(src <= Rebase(q, src, dest))
  {
    var r := Rebase(q, src, dest);
    if src <= r {
      PrefixesComparable(src, dest, r);
    }
  }

  /** Moving a file: `copyFile` to the destination, then `unlink` the source.
      The unlink cannot fail once the copy succeeded. */
  function MoveFile(t: Tree, src: Path, dest: Path): (r: Result<Tree>)
    requires WellFormed(t)
    ensures r.Ok? <==> CopyFile(t, src, dest).Ok?
    ensures r.Err? ==> r == CopyFile(t, src, dest)
    ensures r.Ok? ==> WellFormed(r.value) && r.value == t[dest := t[src]] - {src}
  {
    match CopyFile(t, src, dest)
      case Err(e) => Err(e)
      case Ok(t') => Unlink(t', src)
  }

  /** Moving a directory tree: `fs.cp` to the destination, then `rm` of the source
      (recursive, without `force`). The removal cannot fail once the copy succeeded. */
  function MoveTree(t: Tree, src: Path, dest: Path): (r: Result<Tree>)
    requires WellFormed(t)
    ensures r.Ok? <==> CopyTree(t, src, dest).Ok?
    ensures r.Err? ==> r == CopyTree(t, src, dest)
    ensures r.Ok? ==> WellFormed(r.value) && r.value == Prune(CopyTree(t, src, dest).value, src)
  {
    match CopyTree(t, src, dest)
      case Err(e) => Err(e)
      case Ok(t') => Remove(t', src, false)
  }

  /** After a move nothing is left at or below the source path: in particular a
      file moved onto its own path is gone, since copying a file onto itself
      leaves it as it was and the unlink then removes it. */
  lemma MoveFileLeavesNothing(t: Tree, src: Path, dest: Path)
    requires WellFormed(t) && MoveFile(t, src, dest).Ok?
    ensures forall q :: q in MoveFile(t, src, dest).value ==> !(src <= q)
    ensures dest == src ==> MoveFile(t, src, dest).value == t - {src}
  {
    assert src in t && t[src].File?;
    NothingBelowLeaf(t, src);
    CopyNotBelowFile(t, src, dest);
  }

  /** A file's copy never lands below the file itself. */
  lemma CopyNotBelowFile(t: Tree, src: Path, dest: Path)
    requires WellFormed(t) && src in t && t[src].File?
    requires (dest in t && t[dest].File?) || (dest !in t && Dirname(dest) in t && t[Dirname(dest)] == Dir)
    ensures !(src < dest)
  {
    NothingBelowLeaf(t, src);
    PrefixOfParent(src, dest);
  }

  /** After a directory move nothing is left at or below the source path. */
  lemma MoveTreeLeavesNothing(t: Tree, src: Path, dest: Path)
    requires WellFormed(t) && MoveTree(t, src, dest).Ok?
    ensures forall q :: q in MoveTree(t, src, dest).value ==> !(src <= q)
  {
  }

  /** A directory moved to a place neither inside nor above itself arrives whole:
      every entry of the source is found at its rebased path. */
  lemma MovedTreeArrives(t: Tree, src: Path, dest: Path)
    requires WellFormed(t) && MoveTree(t, src, dest).Ok? && !(dest <= src)
    ensures forall q :: q in t && src <= q ==>
      Rebase(q, src, dest) in MoveTree(t, src, dest).value && MoveTree(t, src, dest).value[Rebase(q, src, dest)] == t[q]
  {
    forall q | q in t && src <= q
      ensures Rebase(q, src, dest) in MoveTree(t, src, dest).value
    {
      RebaseLeavesSource(q, src, dest);
    }
  }
}
