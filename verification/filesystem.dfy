/**
 * An abstract file system: directories, regular files and symbolic links
 * (link path to raw target), plus the paths whose removal the operating
 * system refuses. Symbolic links are followed one hop, the way every
 * existence test in the installer follows the link it is given.
 */
module FileSystem {
  import opened Wrappers
  import opened Paths

  datatype Fs = Fs(dirs: set<Path>, files: set<Path>, links: map<Path, Path>, locked: set<Path>)

  datatype IoError =
    | NotFound(path: Path)
    | AlreadyExists(path: Path)
    | PermissionDenied(path: Path)
    | NotADirectory(path: Path)
    | IsADirectory(path: Path)

  /** The application home and its fixed sub-directories. */
  datatype AppDir = AppDir(home: Path) {
    function Packages(): Path { home + [Normal("packages")] }
    function Bin(): Path { home + [Normal("bin")] }
    function Alias(): Path { home + [Normal("alias")] }
    function Tmp(): Path { home + [Normal("tmp")] }
  }

  /** The tool's own file-system error (`FSError`). */
  datatype FsError =
    | Io(cause: IoError)
    | AppDirError
    | Zip(message: string)
    | SevenZ(message: string)
    | LinkError
    | UnsupportedFile(what: string)

  /** The scratch workspace and the packages tree never overlap. */
  lemma TmpNotUnderPackages(app: AppDir, p: Path)
    requires StartsWith(p, app.Tmp())
    ensures !StartsWith(p, app.Packages())
  {
    assert p[|app.home|] == Normal("tmp");
    assert app.Packages()[|app.home|] == Normal("packages");
  }

  /** What `p` names after following one symbolic link. */
  function Resolve(fs: Fs, p: Path): Path {
    if p in fs.links then fs.links[p] else p
  }

  /** Rust's `Path::exists` (follows a link; a dangling link does not exist). */
  predicate Exists(fs: Fs, p: Path) {
    Resolve(fs, p) in fs.dirs || Resolve(fs, p) in fs.files
  }

  /** Rust's `Path::is_file` (follows a link). */
  predicate IsFile(fs: Fs, p: Path) {
    Resolve(fs, p) in fs.files
  }

  /** Rust's `Path::is_dir` (follows a link). */
  predicate IsDir(fs: Fs, p: Path) {
    Resolve(fs, p) in fs.dirs
  }

  /** Rust's `Path::is_symlink` (does not follow). */
  predicate IsSymlink(fs: Fs, p: Path) {
    p in fs.links
  }

  /** Something, possibly a dangling link, occupies the directory entry `p`. */
  predicate Occupied(fs: Fs, p: Path) {
    p in fs.dirs || p in fs.files || p in fs.links
  }

  /** The parent of `p` exists and is a directory. */
  predicate ParentIsDir(fs: Fs, p: Path) {
    Parent(p).Some? && IsDir(fs, Parent(p).value)
  }

  /** Everything below and including `p` removed. */
  function Prune(fs: Fs, p: Path): (r: Fs)
    ensures forall q :: q in r.dirs <==> q in fs.dirs && !StartsWith(q, p)
    ensures forall q :: q in r.files <==> q in fs.files && !StartsWith(q, p)
    ensures forall q :: q in r.links <==> q in fs.links && !StartsWith(q, p)
    ensures forall q :: q in r.links ==> r.links[q] == fs.links[q]
    ensures r.locked == fs.locked
  {
    Fs(set q | q in fs.dirs && !StartsWith(q, p),
       set q | q in fs.files && !StartsWith(q, p),
       map q | q in fs.links && !StartsWith(q, p) :: fs.links[q],
       fs.locked)
  }

  /** Unlinks a file or a symbolic link (Rust's `fs::remove_file` on Unix). */
  function RemoveFile(fs: Fs, p: Path): (r: Result<Fs, IoError>)
    ensures r.Ok? <==> p !in fs.locked && (p in fs.links || p in fs.files)
    ensures r.Ok? && p in fs.links ==>
      r.value == fs.(links := fs.links - {p})
    ensures r.Ok? && p !in fs.links ==>
      r.value == fs.(files := fs.files - {p})
  {
    if p in fs.locked then Err(PermissionDenied(p))
    else if p in fs.links then Ok(fs.(links := fs.links - {p}))
    else if p in fs.files then Ok(fs.(files := fs.files - {p}))
    else if p in fs.dirs then Err(IsADirectory(p))
    else Err(NotFound(p))
  }

  /** No path at or below `p` is locked, so every entry of the tree can be deleted. */
  predicate Removable(fs: Fs, p: Path) {
    forall q | q in fs.locked :: !StartsWith(q, p)
  }

  /**
   * Removes a directory tree (Rust's `fs::remove_dir_all`): a symbolic link
   * is removed itself, never followed; a directory goes only when nothing
   * at or below it is locked, and otherwise the call fails.
   */
  function RemoveDirAll(fs: Fs, p: Path): (r: Result<Fs, IoError>)
    ensures r.Ok? <==> (p in fs.links && p !in fs.locked) || (p !in fs.links && p in fs.dirs && Removable(fs, p))
    ensures r.Ok? && p !in fs.links ==> r.value == Prune(fs, p)
    ensures r.Ok? && p in fs.links ==> r.value == fs.(links := fs.links - {p})
  {
    if p in fs.locked then Err(PermissionDenied(p))
    else if p in fs.links then Ok(fs.(links := fs.links - {p}))
    else if p in fs.dirs then
      if Removable(fs, p) then Ok(Prune(fs, p))
      else Err(PermissionDenied(p))
    else if p in fs.files then Err(NotADirectory(p))
    else Err(NotFound(p))
  }

  /** A locked path anywhere in a directory tree makes its removal fail. */
  lemma RemoveDirAllRefusesLocked(fs: Fs, p: Path, q: Path)
    requires p !in fs.links && q in fs.locked && StartsWith(q, p)
    ensures RemoveDirAll(fs, p).Err?
  {
  }

  /** Creates one directory (Rust's `fs::create_dir`). */
  function CreateDir(fs: Fs, p: Path): (r: Result<Fs, IoError>)
    ensures r.Ok? <==> !Occupied(fs, p) && ParentIsDir(fs, p)
    ensures r.Ok? ==> r.value == fs.(dirs := fs.dirs + {p})
  {
    if Occupied(fs, p) then Err(AlreadyExists(p))
    else if !ParentIsDir(fs, p) then Err(NotFound(p))
    else Ok(fs.(dirs := fs.dirs + {p}))
  }

  /**
   * Some non-empty prefix of `p` stands in the way of `create_dir_all`: it
   * is a regular file (or a link to one), or a dangling link. `mkdir` on
   * either reports "already exists", and `is_dir` on it is false.
   */
  predicate Blocked(fs: Fs, p: Path) {
    exists k | 1 <= k <= |p| :: IsFile(fs, p[..k]) || (p[..k] in fs.links && !Exists(fs, p[..k]))
  }

  /**
   * Creates a directory and its missing ancestors (Rust's `fs::create_dir_all`).
   * Afterwards every prefix of `p` is a directory, directly or through a link.
   */
  function CreateDirAll(fs: Fs, p: Path): (r: Result<Fs, IoError>)
    ensures r.Ok? <==> !Blocked(fs, p)
    ensures r.Ok? ==> forall k | 1 <= k <= |p| :: IsDir(r.value, p[..k])
    ensures r.Ok? && |p| > 0 && p !in fs.links ==> p in r.value.dirs
    ensures r.Ok? ==> r.value.files == fs.files && r.value.links == fs.links
    ensures r.Ok? ==> fs.dirs <= r.value.dirs && r.value.locked == fs.locked
    ensures r.Ok? ==> forall q :: q in r.value.dirs - fs.dirs ==> StartsWith(p, q)
  {
    if Blocked(fs, p) then Err(AlreadyExists(p))
    else
      var added := set k | 1 <= k <= |p| && p[..k] !in fs.links :: p[..k];
      assert p[..|p|] == p;
      assert |p| > 0 && p !in fs.links ==> p[..|p|] in added;
      assert forall k | 1 <= k <= |p| && p[..k] !in fs.links :: p[..k] in added;
      Ok(fs.(dirs := fs.dirs + added))
  }

  /** `create_dir_all` on a path it has just created succeeds again and changes nothing. */
  lemma CreateDirAllIdempotent(fs: Fs, p: Path)
    requires CreateDirAll(fs, p).Ok?
    ensures CreateDirAll(CreateDirAll(fs, p).value, p) == CreateDirAll(fs, p)
  {
    var fs' := CreateDirAll(fs, p).value;
    forall k | 1 <= k <= |p| && p[..k] in fs'.links
      ensures Exists(fs', p[..k])
    {
      assert !(p[..k] in fs.links && !Exists(fs, p[..k]));
    }
    assert !Blocked(fs', p);
    var added := set k | 1 <= k <= |p| && p[..k] !in fs'.links :: p[..k];
    assert added <= fs'.dirs by {
      forall q | q in added ensures q in fs'.dirs {
        var k :| 1 <= k <= |p| && p[..k] !in fs'.links && q == p[..k];
        assert IsDir(fs', p[..k]);
      }
    }
    assert fs'.(dirs := fs'.dirs + added) == fs';
  }

  /** A dangling link at the path, or at any of its ancestors, makes `create_dir_all` fail. */
  lemma CreateDirAllRefusesDanglingLink(fs: Fs, p: Path, k: nat)
    requires 1 <= k <= |p| && p[..k] in fs.links && fs.links[p[..k]] !in fs.dirs && fs.links[p[..k]] !in fs.files
    ensures CreateDirAll(fs, p).Err?
  {
    assert p[..k] in fs.links && !Exists(fs, p[..k]);
  }

  /** Creates or truncates a regular file (Rust's `File::create`); writes go through a link. */
  function CreateFile(fs: Fs, p: Path): (r: Result<Fs, IoError>)
    ensures r.Ok? <==> ParentIsDir(fs, p) && !IsDir(fs, p) && p !in fs.locked
    ensures r.Ok? ==> r.value == fs.(files := fs.files + {Resolve(fs, p)})
  {
    if !ParentIsDir(fs, p) then Err(NotFound(p))
    else if IsDir(fs, p) then Err(IsADirectory(p))
    else if p in fs.locked then Err(PermissionDenied(p))
    else Ok(fs.(files := fs.files + {Resolve(fs, p)}))
  }

  /** Copies a regular file (Rust's `fs::copy`): the source must be a file. */
  function Copy(fs: Fs, src: Path, dst: Path): (r: Result<Fs, IoError>)
    ensures r.Ok? <==> IsFile(fs, src) && ParentIsDir(fs, dst) && !IsDir(fs, dst) && dst !in fs.locked
    ensures r.Ok? ==> IsFile(r.value, dst)
    ensures r.Ok? ==> r.value == fs.(files := fs.files + {Resolve(fs, dst)})
  {
    if !IsFile(fs, src) then Err(NotFound(src))
    else CreateFile(fs, dst)
  }

  /**
   * Moves a regular file over `to` (Rust's `fs::rename`), replacing what was
   * there: a file, or a symbolic link itself, which is not followed.
   */
  function Rename(fs: Fs, from: Path, to: Path): (r: Result<Fs, IoError>)
    ensures r.Ok? <==> from in fs.files && from !in fs.locked && to !in fs.locked
                       && to !in fs.dirs && ParentIsDir(fs, to)
    ensures r.Ok? ==> to in r.value.files && (from != to ==> from !in r.value.files)
    ensures r.Ok? ==> r.value == fs.(files := fs.files - {from} + {to}, links := fs.links - {to})
  {
    if from !in fs.files then Err(NotFound(from))
    else if from in fs.locked || to in fs.locked then Err(PermissionDenied(to))
    else if to in fs.dirs then Err(IsADirectory(to))
    else if !ParentIsDir(fs, to) then Err(NotFound(to))
    else Ok(fs.(files := fs.files - {from} + {to}, links := fs.links - {to}))
  }

  /**
   * Creates a symbolic link at `link` whose target is `target` (the Unix
   * `make_link`). Like `symlink(2)` it fails when anything, even a dangling
   * link, already occupies `link`; the target need not exist.
   */
  function MakeLink(fs: Fs, link: Path, target: Path): (r: Result<Fs, IoError>)
    ensures r.Ok? <==> !Occupied(fs, link) && ParentIsDir(fs, link)
    ensures r.Ok? ==> r.value == fs.(links := fs.links[link := target])
  {
    if Occupied(fs, link) then Err(AlreadyExists(link))
    else if !ParentIsDir(fs, link) then Err(NotFound(link))
    else Ok(fs.(links := fs.links[link := target]))
  }

  /** Removes the file or link at `p` itself (the Unix `remove_link`). */
  function RemoveLink(fs: Fs, p: Path): (r: Result<Fs, IoError>)
    ensures r.Ok? <==> p !in fs.locked && (p in fs.links || p in fs.files)
    ensures r.Ok? ==> p !in r.value.links && r.value.dirs == fs.dirs
  {
    RemoveFile(fs, p)
  }

  /** A freshly made link reads back its target, and removing it restores the file system. */
  lemma MakeThenRemoveLink(fs: Fs, link: Path, target: Path)
    requires MakeLink(fs, link, target).Ok?
    requires link !in fs.locked
    ensures MakeLink(fs, link, target).value.links[link] == target
    ensures IsSymlink(MakeLink(fs, link, target).value, link)
    ensures RemoveLink(MakeLink(fs, link, target).value, link) == Ok(fs)
  {
    var made := MakeLink(fs, link, target).value;
    assert made.links - {link} == fs.links;
  }
}
