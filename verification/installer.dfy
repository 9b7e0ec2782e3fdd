/**
 * The file-system steps both installers share, each with the error
 * conversion the `?` at its call site performs: a standard I/O error
 * becomes `InstallError::FileSystem`, an error of the tool's link helpers
 * becomes `InstallError::ToolFs`.
 */
module Installer {
  import opened Wrappers
  import opened Paths
  import opened FileSystem
  import opened Trace
  import opened Layout
  import Release
  import Http

  /** A standard file-system call passed up with `?`. */
  function Std(fs: Fs, effect: Effect, res: Result<Fs, IoError>): (r: Run)
    ensures r.trace == [effect]
    ensures res.Ok? ==> r == Run(res.value, [effect], Ok(()))
    ensures res.Err? ==> r == Run(fs, [effect], Err(Release.FileSystem(res.error)))
  {
    match res
    case Ok(fs') => Run(fs', [effect], Ok(()))
    case Err(e) => Run(fs, [effect], Err(Release.FileSystem(e)))
  }

  /** A call of the tool's link helpers passed up with `?`. */
  function Tool(fs: Fs, effect: Effect, res: Result<Fs, IoError>): (r: Run)
    ensures res.Ok? ==> r == Run(res.value, [effect], Ok(()))
    ensures res.Err? ==> r == Run(fs, [effect], Err(Release.ToolFs(Io(res.error))))
  {
    match res
    case Ok(fs') => Run(fs', [effect], Ok(()))
    case Err(e) => Run(fs, [effect], Err(Release.ToolFs(Io(e))))
  }

  /** Removes a stale regular file at `p`, if there is one. */
  function RemoveStale(fs: Fs, p: Path): (r: Run)
    ensures !IsFile(fs, p) ==> r == Skip(fs)
    ensures IsFile(fs, p) ==> r.trace == [RemovedFile(p)]
    ensures IsFile(fs, p) && p in fs.locked ==> r.result == Err(Release.FileSystem(PermissionDenied(p)))
    ensures r.result.Ok? ==> r.fs.dirs == fs.dirs && r.fs.locked == fs.locked
    ensures r.result.Ok? ==> r.fs.files == fs.files - {p} || r.fs.files == fs.files
    ensures r.result.Ok? ==> r.fs.links == fs.links || r.fs.links == fs.links - {p}
    ensures r.result.Err? ==> r.fs == fs
  {
    if Exists(fs, p) && IsFile(fs, p) then Std(fs, RemovedFile(p), RemoveFile(fs, p))
    else Skip(fs)
  }

  /** Removes the directory tree at `p`, if `p` is a directory. */
  function RemoveTreeIfDir(fs: Fs, p: Path): (r: Run)
    ensures !IsDir(fs, p) ==> r == Skip(fs)
    ensures IsDir(fs, p) ==> r.trace == [RemovedTree(p)]
    ensures IsDir(fs, p) && p !in fs.links ==> (r.result.Ok? <==> Removable(fs, p))
    ensures r.result.Ok? && p !in fs.links ==> r.fs == (if IsDir(fs, p) then Prune(fs, p) else fs)
    ensures r.fs.files <= fs.files && r.fs.dirs <= fs.dirs && r.fs.locked == fs.locked
    ensures forall q :: q in r.fs.links ==> q in fs.links && r.fs.links[q] == fs.links[q]
    ensures r.result.Err? ==> r.fs == fs
  {
    if Exists(fs, p) && IsDir(fs, p) then Std(fs, RemovedTree(p), RemoveDirAll(fs, p))
    else Skip(fs)
  }

  /** `create_dir_all` passed up with `?`. */
  function MakeDirs(fs: Fs, p: Path): (r: Run)
    ensures r.trace == [MadeDir(p)]
    ensures r.result.Ok? <==> !Blocked(fs, p)
    ensures r.result.Ok? ==> r.fs.files == fs.files && r.fs.links == fs.links && r.fs.locked == fs.locked
    ensures r.result.Ok? ==> fs.dirs <= r.fs.dirs
    ensures r.result.Ok? && |p| > 0 && p !in fs.links ==> p in r.fs.dirs
    ensures r.result.Err? ==> r.fs == fs
  {
    Std(fs, MadeDir(p), CreateDirAll(fs, p))
  }

  /** Downloads `url` into `to` with progress reporting; a failure becomes `InstallError::Download`. */
  function Fetch(fs: Fs, url: string, to: Path, reply: Http.Reply): (r: Run)
    ensures r.trace == [Fetched(url, to)]
    ensures r.result.Ok? <==> reply.Streamed? && CreateFile(fs, to).Ok? && Http.AllData(reply.chunks)
    ensures r.fs.dirs == fs.dirs && r.fs.links == fs.links && r.fs.locked == fs.locked
    ensures fs.files <= r.fs.files <= fs.files + {Resolve(fs, to)}
    ensures r.result.Err? ==> r.result.error.Download?
  {
    var (fs', res) := Http.DownloadWithProgress(fs, to, reply);
    match res
    case Ok(_) => Run(fs', [Fetched(url, to)], Ok(()))
    case Err(e) => Run(fs', [Fetched(url, to)], Err(Release.Download(e)))
  }

  /**
   * Points `link` at `target`: a regular file (or a link to one) at `link`
   * is removed first, then the link is made. A dangling link at `link` is
   * not a file, so it stays and blocks the new link.
   */
  function Relink(fs: Fs, link: Path, target: Path): (r: Run)
    ensures r.result.Ok? ==> link in r.fs.links && r.fs.links[link] == target
    ensures r.result.Ok? ==> forall q :: q in fs.links && q != link ==> q in r.fs.links && r.fs.links[q] == fs.links[q]
    ensures forall q :: q in r.fs.links ==> q == link || q in fs.links
    ensures r.result.Ok? ==> r.fs.dirs == fs.dirs && r.fs.locked == fs.locked
    ensures r.result.Ok? ==> fs.files - {link} <= r.fs.files <= fs.files
    ensures r.result.Err? ==> r.result.error.ToolFs?
    ensures NoFetch(r.trace) && !Compiles(r.trace)
    ensures !Occupied(fs, link) && ParentIsDir(fs, link) ==> r == Run(fs.(links := fs.links[link := target]), [Linked(link, target)], Ok(()))
    ensures link in fs.links && !Exists(fs, link) ==> r.result == Err(Release.ToolFs(Io(AlreadyExists(link))))
  {
    var cleared := if Exists(fs, link) && IsFile(fs, link) then Tool(fs, RemovedFile(link), RemoveLink(fs, link)) else Skip(fs);
    var linked := Tool(cleared.fs, Linked(link, target), MakeLink(cleared.fs, link, target));
    ThenTrace(cleared, linked);
    Then(cleared, linked)
  }

  /** Removes the scratch workspace; a failure is ignored. */
  function ClearTmp(fs: Fs, tmp: Path): (r: Run)
    ensures r.result.Ok? && r.trace == [RemovedTree(tmp)]
    ensures r.fs.files <= fs.files && r.fs.dirs <= fs.dirs
    ensures forall q :: q in fs.files && !StartsWith(q, tmp) ==> q in r.fs.files
    ensures forall q :: q in fs.dirs && !StartsWith(q, tmp) ==> q in r.fs.dirs
    ensures forall q :: q in fs.links && !StartsWith(q, tmp) ==> q in r.fs.links && r.fs.links[q] == fs.links[q]
    ensures forall q :: q in r.fs.links ==> q in fs.links
    ensures tmp in fs.dirs && tmp !in fs.links && Removable(fs, tmp) ==>
      forall q :: q in r.fs.files ==> !StartsWith(q, tmp)
  {
    match RemoveDirAll(fs, tmp)
    case Ok(fs') => Run(fs', [RemovedTree(tmp)], Ok(()))
    case Err(_) => Run(fs, [RemovedTree(tmp)], Ok(()))
  }

  /**
   * Makes an installed binary reachable and clears the workspace: the
   * `bin` link, then the alias link when there is one, then `tmp`.
   */
  function Expose(fs: Fs, app: AppDir, exe: string, binName: string, alias: Option<string>, bin: Path): (r: Run)
    ensures NoFetch(r.trace) && !Compiles(r.trace)
  {
    var linked := Relink(fs, BinLink(app, binName, exe), bin);
    var aliased := match alias
      case Some(a) => Relink(linked.fs, AliasLink(app, a, exe), bin)
      case None => Skip(linked.fs);
    var cleared := ClearTmp(aliased.fs, app.Tmp());
    ThenTrace(aliased, cleared);
    ThenTrace(linked, Then(aliased, cleared));
    Then(linked, Then(aliased, cleared))
  }

  /**
   * A successful `Expose` leaves the `bin` link (and the alias link) on the
   * package binary, and keeps every file, directory and link outside the
   * workspace except the two link entries it replaced.
   */
  lemma ExposeLinks(fs: Fs, app: AppDir, exe: string, binName: string, alias: Option<string>, bin: Path)
    requires SimpleName(binName) && (alias.Some? ==> SimpleName(alias.value))
    requires StartsWith(bin, app.Packages())
    requires Expose(fs, app, exe, binName, alias, bin).result.Ok?
    ensures var r := Expose(fs, app, exe, binName, alias, bin);
      && BinLink(app, binName, exe) in r.fs.links && r.fs.links[BinLink(app, binName, exe)] == bin
      && (alias.Some? ==> AliasLink(app, alias.value, exe) in r.fs.links
                          && r.fs.links[AliasLink(app, alias.value, exe)] == bin)
      && (forall q :: q in r.fs.links ==> q in fs.links || q == BinLink(app, binName, exe)
                                           || (alias.Some? && q == AliasLink(app, alias.value, exe)))
      && (forall q :: q in fs.files && StartsWith(q, app.Packages()) ==> q in r.fs.files)
      && (forall q :: q in fs.dirs && !StartsWith(q, app.Tmp()) ==> q in r.fs.dirs)
      && r.fs.locked == fs.locked
  {
    var sys := BinLink(app, binName, exe);
    LinkEntriesApart(app, binName, alias.GetOr(binName), exe);
    var linked := Relink(fs, sys, bin);
    var aliased := match alias
      case Some(a) => Relink(linked.fs, AliasLink(app, a, exe), bin)
      case None => Skip(linked.fs);
    var cleared := ClearTmp(aliased.fs, app.Tmp());
    assert Expose(fs, app, exe, binName, alias, bin) == Then(linked, Then(aliased, cleared));
    assert linked.result.Ok? && aliased.result.Ok?;
    assert sys in aliased.fs.links && aliased.fs.links[sys] == bin;
  }
}
