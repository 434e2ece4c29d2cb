/** The directory endpoints: six request handlers over one mutable filesystem.
    Each handler reads the request arguments, calls the filesystem, and answers
    with a status code; the ones that succeed in changing something leave the
    new tree in `Volume.tree`. */
module FsController {
  import opened Posix

  /** A value taken from a JSON body or a query string, as far as JavaScript's
      truthiness and strict equality see it. */
  datatype Json = Missing | Null | Bool(b: bool) | Number(x: real) | Str(s: string) | Compound

  /** JavaScript truthiness: `undefined`, `null`, `false`, `0` and `""` are falsy;
      objects and arrays are truthy. */
  predicate Truthy(v: Json): (b: bool)
    ensures !b <==> v in {Missing, Null, Bool(false), Number(0.0), Str("")}
  {
    match v
      case Missing => false
      case Null => false
      case Bool(b) => b
      case Number(x) => x != 0.0
      case Str(s) => s != ""
      case Compound => true
  }

  /** A path argument: absent, or the text the client sent together with the
      absolute path it resolves to against the server's working directory. */
  datatype PathArg = Absent | Given(text: string, resolved: Path)

  /** A path argument the handler accepts: one that `!path` does not reject. */
  predicate Supplied(p: PathArg): (b: bool)
    ensures b <==> p.Given? && Truthy(Str(p.text))
  {
    p.Given? && p.text != ""
  }

  /** One line of a directory listing. */
  datatype Entry = Entry(name: string, isDirectory: bool)

  /** What a handler answers: a listing or a file's text (both 200), a bare
      success status (200 or 201), or an error status. */
  datatype Reply = Listing(entries: seq<Entry>) | Content(text: string) | Done(status: nat) | Failed(status: nat)

  /** How the listing handler reports a failed `readdir`. */
  function ListStatus(e: Errno): (status: nat)
    ensures status == 404 <==> e == ENOENT
    ensures status == 400 <==> e == ENOTDIR
    ensures status in {400, 404, 500}
  {
    if e == ENOENT then 404 else if e == ENOTDIR then 400 else 500
  }

  /** How the creation handler reports a failed `mkdir` or `writeFile`. */
  function CreateStatus(e: Errno): (status: nat)
    ensures status == 409 <==> e == EEXIST
    ensures status in {409, 500}
  {
    if e == EEXIST then 409 else 500
  }

  /** How the view, delete, copy and move handlers report a failed call. */
  function FailStatus(e: Errno): (status: nat)
    ensures status == 404 <==> e == ENOENT
    ensures status in {404, 500}
  {
    if e == ENOENT then 404 else 500
  }

  /** One entry per name in `names`, each with the kind of the child of `p` it
      names, in the order `readdir` happens to produce them. */
  method Describe(t: Tree, p: Path, names: set<string>) returns (entries: seq<Entry>)
    requires forall n :: n in names ==> p + [n] in t
    ensures forall i :: 0 <= i < |entries| ==> entries[i].name in names
    ensures forall n :: n in names ==> exists i :: 0 <= i < |entries| && entries[i].name == n
    ensures forall i :: 0 <= i < |entries| ==> entries[i].isDirectory == t[p + [entries[i].name]].Dir?
    ensures forall i, j :: 0 <= i < j < |entries| ==> entries[i].name != entries[j].name
  {
    var left := names;
    entries := [];
    while left != {}
      invariant left <= names
      invariant forall i :: 0 <= i < |entries| ==> entries[i].name in names && entries[i].name !in left
      invariant forall i :: 0 <= i < |entries| ==> entries[i].isDirectory == t[p + [entries[i].name]].Dir?
      invariant forall n :: n in names && n !in left ==> exists i :: 0 <= i < |entries| && entries[i].name == n
      invariant forall i, j :: 0 <= i < j < |entries| ==> entries[i].name != entries[j].name
      decreases left
    {
      var n :| n in left;
      ghost var before := entries;
      entries := entries + [Entry(n, t[p + [n]].Dir?)];
      assert entries[|before|].name == n;
      assert forall i :: 0 <= i < |before| ==> entries[i] == before[i];
      left := left - {n};
    }
  }

  /** The filesystem the server works on, and the directory it was started in. */
  class Volume {
    var tree: Tree
    const cwd: Path

    ghost predicate Valid()
      reads this
    {
      WellFormed(tree)
    }

    constructor (t: Tree, start: Path)
      requires WellFormed(t)
      ensures Valid() && tree == t && cwd == start
    {
      tree := t;
      cwd := start;
    }

    /** GET: list a directory (the working directory when no path is given),
        one entry per child with its kind. */
    method ListDirectory(path: PathArg) returns (r: Reply)
      requires Valid()
      ensures var p := if Supplied(path) then path.resolved else cwd;
        && (r.Listing? <==> p in tree && tree[p] == Dir)
        && (r.Listing? ==> forall i :: 0 <= i < |r.entries| ==>
              p + [r.entries[i].name] in tree && r.entries[i].isDirectory == tree[p + [r.entries[i].name]].Dir?)
        && (r.Listing? ==> forall n :: p + [n] in tree ==> exists i :: 0 <= i < |r.entries| && r.entries[i].name == n)
        && (r.Listing? ==> forall i, j :: 0 <= i < j < |r.entries| ==> r.entries[i].name != r.entries[j].name)
        && (r == Failed(404) <==> Lookup(tree, p) == Err(ENOENT))
        && (r == Failed(400) <==> Lookup(tree, p) == Err(ENOTDIR) || (p in tree && tree[p].File?))
        && (r.Listing? || r == Failed(404) || r == Failed(400))
    {
      var p := if Supplied(path) then path.resolved else cwd;
      match ReadDir(tree, p)
      case Err(e) =>
        r := Failed(ListStatus(e));
      case Ok(names) =>
        var entries := Describe(tree, p, names);
        r := Listing(entries);
    }

    /** POST: create an empty file (making its missing parent directories) or a
        single directory (whose parent must exist). */
    method CreateItem(path: PathArg, kind: Json) returns (r: Reply)
      requires Valid()
      modifies this
      ensures Valid()
      ensures !Supplied(path) || (kind != Str("file") && kind != Str("dir")) ==> r == Failed(400) && tree == old(tree)
      ensures r != Done(201) ==> tree == old(tree)
      ensures Supplied(path) && kind == Str("dir") ==> var p := path.resolved;
        && (r == Done(201) <==> p !in old(tree) && Dirname(p) in old(tree) && old(tree)[Dirname(p)] == Dir)
        && (r == Done(201) ==> tree == old(tree)[p := Dir])
        && (r == Failed(409) <==> p in old(tree))
        && (r == Done(201) || r == Failed(409) || r == Failed(500))
      ensures Supplied(path) && kind == Str("file") ==> var p := path.resolved;
        && (r == Done(201) <==> p !in old(tree) && Lookup(old(tree), Dirname(p)) != Err(ENOTDIR)
                                && !(Dirname(p) in old(tree) && old(tree)[Dirname(p)].File?))
        && (r == Done(201) ==> p in tree && tree[p] == File(""))
        && (r == Done(201) ==> forall q :: q in old(tree) ==> q in tree && tree[q] == old(tree)[q])
        && (r == Done(201) ==> forall q :: q in tree && q !in old(tree) ==> q == p || (q < p && tree[q] == Dir))
        && (r == Failed(409) <==> p in old(tree) || (Dirname(p) in old(tree) && old(tree)[Dirname(p)].File?))
        && (r == Done(201) || r == Failed(409) || r == Failed(500))
    {
      if !Supplied(path) || (kind != Str("file") && kind != Str("dir")) {
        return Failed(400);
      }
      var p := path.resolved;
      if kind == Str("dir") {
        match Create(tree, p, Dir)
        case Ok(t) =>
          tree := t;
          r := Done(201);
        case Err(e) =>
          r := Failed(CreateStatus(e));
      } else {
        match MakeDirs(tree, Dirname(p))
        case Err(e) =>
          r := Failed(CreateStatus(e));
        case Ok(t) =>
          match Create(t, p, File(""))
          case Ok(t') =>
            tree := t';
            r := Done(201);
          case Err(e) =>
            r := Failed(CreateStatus(e));
      }
    }

    /** GET: the text of a file. */
    method ViewFileContent(path: PathArg) returns (r: Reply)
      requires Valid()
      ensures !Supplied(path) ==> r == Failed(400)
      ensures Supplied(path) ==> var p := path.resolved;
        && (r.Content? <==> p in tree && tree[p].File?)
        && (r.Content? ==> tree[p] == File(r.text))
        && (r == Failed(400) <==> p in tree && tree[p] == Dir)
        && (r == Failed(404) <==> Lookup(tree, p) == Err(ENOENT))
        && (r == Failed(500) <==> Lookup(tree, p) == Err(ENOTDIR))
    {
      if !Supplied(path) {
        return Failed(400);
      }
      match Lookup(tree, path.resolved)
      case Ok(Dir) =>
        r := Failed(400);
      case Ok(File(c)) =>
        r := Content(c);
      case Err(e) =>
        r := Failed(FailStatus(e));
    }

    /** DELETE: remove a file, an empty directory, or (with `recursive=true`) a
        directory and everything below it. */
    method DeletePath(path: PathArg, recursive: Json) returns (r: Reply)
      requires Valid()
      modifies this
      ensures Valid()
      ensures !Supplied(path) ==> r == Failed(400)
      ensures r != Done(200) ==> tree == old(tree)
      ensures Supplied(path) ==> var p := path.resolved;
        && (r == Done(200) <==> p in old(tree) && p != []
                                && (old(tree)[p].File? || recursive == Str("true") || Children(old(tree), p) == {}))
        && (r == Done(200) ==> tree == Prune(old(tree), p))
        && (r == Failed(400) <==> p in old(tree) && old(tree)[p] == Dir && recursive != Str("true") && Children(old(tree), p) != {})
        && (r == Failed(404) <==> Lookup(old(tree), p) == Err(ENOENT))
        && (r == Done(200) || r == Failed(400) || r == Failed(404) || r == Failed(500))
    {
      if !Supplied(path) {
        return Failed(400);
      }
      var p := path.resolved;
      match Lookup(tree, p)
      case Err(e) =>
        r := Failed(FailStatus(e));
      case Ok(File(_)) =>
        LeafPrune(tree, p);
        match Unlink(tree, p) {
          case Ok(t) =>
            tree := t;
            r := Done(200);
          case Err(e) =>
            r := Failed(FailStatus(e));
        }
      case Ok(Dir) =>
        if recursive == Str("true") {
          match Remove(tree, p, true)
          case Ok(t) =>
            tree := t;
            r := Done(200);
          case Err(e) =>
            r := Failed(FailStatus(e));
        } else {
          match ReadDir(tree, p)
          case Err(e) =>
            r := Failed(FailStatus(e));
          case Ok(names) =>
            if names != {} {
              r := Failed(400);
            } else {
              LeafPrune(tree, p);
              match Rmdir(tree, p)
              case Ok(t) =>
                tree := t;
                r := Done(200);
              case Err(e) =>
                r := Failed(FailStatus(e));
            }
        }
    }

    /** POST: copy a file (`copyFile`) or, with a truthy `recursive`, a directory
        tree (`fs.cp`). */
    method CopyPath(source: PathArg, destination: PathArg, recursive: Json) returns (r: Reply)
      requires Valid()
      modifies this
      ensures Valid()
      ensures !Supplied(source) || !Supplied(destination) ==> r == Failed(400)
      ensures r != Done(200) ==> tree == old(tree)
      ensures Supplied(source) && Supplied(destination) ==> var s, d := source.resolved, destination.resolved;
        && (r == Failed(404) <==> Lookup(old(tree), s) == Err(ENOENT)
                                  || (s in old(tree) && old(tree)[s].File? && Lookup(old(tree), Dirname(d)) == Err(ENOENT)))
        && (r == Failed(400) <==> s in old(tree) && old(tree)[s] == Dir && !Truthy(recursive))
        && (s in old(tree) && old(tree)[s].File? ==>
              (r == Done(200) <==> CopyFile(old(tree), s, d).Ok?) && (r == Done(200) ==> tree == old(tree)[d := old(tree)[s]]))
        && (s in old(tree) && old(tree)[s] == Dir && Truthy(recursive) ==>
              (r == Done(200) <==> CopyTree(old(tree), s, d).Ok?) && (r == Done(200) ==> tree == CopyTree(old(tree), s, d).value))
        && (r == Done(200) || r == Failed(400) || r == Failed(404) || r == Failed(500))
    {
      if !Supplied(source) || !Supplied(destination) {
        return Failed(400);
      }
      var s, d := source.resolved, destination.resolved;
      match Lookup(tree, s)
      case Err(e) =>
        r := Failed(FailStatus(e));
      case Ok(Dir) =>
        if !Truthy(recursive) {
          return Failed(400);
        }
        match CopyTree(tree, s, d) {
          case Ok(t) =>
            tree := t;
            r := Done(200);
          case Err(e) =>
            r := Failed(FailStatus(e));
        }
      case Ok(File(_)) =>
        match CopyFile(tree, s, d)
        case Ok(t) =>
          tree := t;
          r := Done(200);
        case Err(e) =>
          r := Failed(FailStatus(e));
    }

    /** POST: move a file (`copyFile` then `unlink`) or, with a truthy `recursive`,
        a directory tree (`fs.cp` then `rm`). */
    method MovePath(source: PathArg, destination: PathArg, recursive: Json) returns (r: Reply)
      requires Valid()
      modifies this
      ensures Valid()
      ensures !Supplied(source) || !Supplied(destination) ==> r == Failed(400)
      ensures r != Done(200) ==> tree == old(tree)
      ensures r == Done(200) || r == Failed(400) || r == Failed(404) || r == Failed(500)
      ensures Supplied(source) && Supplied(destination) ==> var s, d := source.resolved, destination.resolved;
        && (r == Failed(404) <==> Lookup(old(tree), s) == Err(ENOENT)
                                  || (s in old(tree) && old(tree)[s].File? && Lookup(old(tree), Dirname(d)) == Err(ENOENT)))
        && (r == Failed(400) <==> s in old(tree) && old(tree)[s] == Dir && !Truthy(recursive))
        && (s in old(tree) && old(tree)[s].File? ==>
              (r == Done(200) <==> MoveFile(old(tree), s, d).Ok?) && (r == Done(200) ==> tree == MoveFile(old(tree), s, d).value))
        && (s in old(tree) && old(tree)[s] == Dir && Truthy(recursive) ==>
              (r == Done(200) <==> MoveTree(old(tree), s, d).Ok?) && (r == Done(200) ==> tree == MoveTree(old(tree), s, d).value))
    {
      if !Supplied(source) || !Supplied(destination) {
        return Failed(400);
      }
      var s, d := source.resolved, destination.resolved;
      match Lookup(tree, s)
      case Err(e) =>
        r := Failed(FailStatus(e));
      case Ok(Dir) =>
        if !Truthy(recursive) {
          return Failed(400);
        }
        match MoveTree(tree, s, d) {
          case Ok(t) =>
            tree := t;
            r := Done(200);
          case Err(e) =>
            r := Failed(FailStatus(e));
        }
      case Ok(File(_)) =>
        match MoveFile(tree, s, d)
        case Ok(t) =>
          tree := t;
          r := Done(200);
        case Err(e) =>
          r := Failed(FailStatus(e));
    }
  }
}
