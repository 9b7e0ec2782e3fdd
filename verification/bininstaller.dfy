/**
 * Installing a package from a prebuilt release asset (`RustBinInstaller`):
 * download the first matching asset into the workspace, put the binary in
 * `packages/<name>/<version>`, link it from `bin` (and from `alias`), and
 * clear the workspace. When no asset fits, the user may choose to build the
 * release's source archive instead.
 */
module BinInstaller {
  import opened Wrappers
  import opened Paths
  import opened FileSystem
  import opened Trace
  import opened Installer
  import opened Layout
  import Strings
  import Release
  import Catalog
  import Archive
  import Http
  import Request
  import Console
  import SrcInstaller

  /** The asset already is the executable: its name ends in `.<platform extension>`. */
  predicate DirectExe(name: string, exe: string) {
    exe != "" && Strings.EndsWith(name, "." + exe)
  }

  /**
   * Where the binary sits in an extracted tree: below the top folder (if
   * any), then below the package's `bin_path` (if any), named `bin_name`
   * with the platform's extension.
   */
  function ExtractedBin(tmp: Path, folder: Option<string>, binPath: Option<string>, binName: string, exe: string): Path {
    WithExtension(Child(Below(Below(tmp, folder), binPath), binName), exe)
  }

  /** Relative folder names keep the looked-up binary inside the workspace. */
  lemma ExtractedBinInTmp(tmp: Path, folder: Option<string>, binPath: Option<string>, binName: string, exe: string)
    requires |tmp| > 0 && SimpleName(binName)
    requires folder.Some? ==> !IsAnchored(Parse(folder.value))
    requires binPath.Some? ==> !IsAnchored(Parse(binPath.value))
    ensures StartsWith(ExtractedBin(tmp, folder, binPath, binName, exe), tmp)
    ensures FileName(ExtractedBin(tmp, folder, binPath, binName, exe)) == Some(SetExtension(binName, exe))
  {
    var top := Below(tmp, folder);
    var dir := Below(top, binPath);
    StartsWithTrans(dir, top, tmp);
    ExtendUnder(dir, tmp, binName, exe);
  }

  /** `base` joined with `sub` when there is one. */
  function Below(base: Path, sub: Option<string>): (r: Path)
    ensures |base| > 0 && (sub.Some? ==> !IsAnchored(Parse(sub.value))) ==> StartsWith(r, base) && |r| > 0
  {
    match sub
    case Some(s) => Child(base, s)
    case None => base
  }

  lemma ExtendUnder(dir: Path, tmp: Path, binName: string, exe: string)
    requires StartsWith(dir, tmp) && SimpleName(binName)
    ensures StartsWith(WithExtension(Child(dir, binName), exe), tmp)
    ensures FileName(WithExtension(Child(dir, binName), exe)) == Some(SetExtension(binName, exe))
  {
    ChildSimple(dir, binName);
    WithExtensionLast(dir, binName, exe);
    var last := dir + [Normal(SetExtension(binName, exe))];
    assert last[..|tmp|] == dir[..|tmp|];
  }

  /**
   * Puts the downloaded asset in place as the package binary: an
   * executable or a file without extension is copied, an archive is
   * extracted into the workspace and the binary copied out of it, and any
   * other extension is refused, after the download.
   */
  function Place(fs: Fs, exe: string, asset: Release.AppAsset, toFile: Path, tmp: Path, package: Catalog.Package,
                 bin: Path, payload: Archive.Payload): (r: Run)
    ensures r.fs.dirs == fs.dirs && r.fs.links == fs.links && r.fs.locked == fs.locked
    ensures fs.files <= r.fs.files
    ensures forall q :: q in r.fs.files && q !in fs.files ==> q == Resolve(fs, bin) || q in Archive.Unpacked(payload, tmp)
    ensures r.result.Ok? ==> IsFile(r.fs, bin)
    ensures !DirectExe(asset.name, exe) && Archive.GetFileType(Parse(asset.name)).Unknown? ==>
      r == Run(fs, [], Err(Release.GeneralStr("unsupported file type")))
    ensures NoFetch(r.trace) && NoLink(r.trace) && !Compiles(r.trace)
  {
    if DirectExe(asset.name, exe) then Std(fs, Copied(toFile, bin), Copy(fs, toFile, bin))
    else match Archive.GetFileType(Parse(asset.name))
      case Unknown => Run(fs, [], Err(Release.GeneralStr("unsupported file type")))
      case Plain => Std(fs, Copied(toFile, bin), Copy(fs, toFile, bin))
      case Compression => PlaceFromArchive(fs, exe, toFile, tmp, package, bin, payload)
  }

  /** Extracts the archive into the workspace and copies the binary out of the extracted tree. */
  function PlaceFromArchive(fs: Fs, exe: string, archive: Path, tmp: Path, package: Catalog.Package,
                            bin: Path, payload: Archive.Payload): (r: Run)
    ensures r.fs.dirs == fs.dirs && r.fs.links == fs.links && r.fs.locked == fs.locked
    ensures fs.files <= r.fs.files
    ensures forall q :: q in r.fs.files && q !in fs.files ==> q == Resolve(fs, bin) || q in Archive.Unpacked(payload, tmp)
    ensures r.result.Ok? ==> IsFile(r.fs, bin)
    ensures NoFetch(r.trace) && NoLink(r.trace) && !Compiles(r.trace)
  {
    match Archive.Decompress(archive, payload)
    case Err(e) => Run(fs, [Extracted(archive, tmp)], Err(Release.ToolFs(e)))
    case Ok(folder) =>
      var unpacked := fs.(files := fs.files + Archive.Unpacked(payload, tmp));
      var src := ExtractedBin(tmp, folder, package.binPath, package.binName, exe);
      var extracted := Run(unpacked, [Extracted(archive, tmp)], Ok(()));
      var copied := Std(unpacked, Copied(src, bin), Copy(unpacked, src, bin));
      ThenTrace(extracted, copied);
      Then(extracted, copied)
  }

  /**
   * An archive whose extracted tree holds the binary where the package
   * says it is gets installed: the copy out of the workspace succeeds.
   */
  lemma ArchiveBinaryPlaced(fs: Fs, exe: string, archive: Path, tmp: Path, package: Catalog.Package,
                            bin: Path, payload: Archive.Payload)
    requires Archive.Decompress(archive, payload).Ok?
    requires var src := ExtractedBin(tmp, Archive.Decompress(archive, payload).value, package.binPath, package.binName, exe);
      src in Archive.Unpacked(payload, tmp) && src !in fs.links
    requires ParentIsDir(fs, bin) && !IsDir(fs, bin) && bin !in fs.locked
    ensures PlaceFromArchive(fs, exe, archive, tmp, package, bin, payload).result.Ok?
  {
  }

  /** Downloads the asset into the workspace and creates the version directory. */
  function Stage(fs: Fs, url: string, toFile: Path, dir: Path, reply: Http.Reply): (r: Run)
    ensures |r.trace| > 0 && r.trace[0] == Fetched(url, toFile)
    ensures !Compiles(r.trace)
    ensures r.fs.links == fs.links
    ensures r.result.Ok? && |dir| > 0 && dir !in fs.links ==> dir in r.fs.dirs
  {
    var fetched := Fetch(fs, url, toFile, reply);
    var made := MakeDirs(fetched.fs, dir);
    ThenTrace(fetched, made);
    Then(fetched, made)
  }

  /**
   * Downloads the asset into `toFile`, creates the version directory,
   * places the binary and exposes it.
   */
  function Deliver(fs: Fs, app: AppDir, exe: string, asset: Release.AppAsset, package: Catalog.Package,
                   alias: Option<string>, toFile: Path, dir: Path, bin: Path, reply: Http.Reply, payload: Archive.Payload): (r: Run)
    ensures |r.trace| > 0 && r.trace[0] == Fetched(asset.downloadUrl, toFile)
    ensures !Compiles(r.trace)
    ensures !DirectExe(asset.name, exe) && Archive.GetFileType(Parse(asset.name)).Unknown? ==> r.result.Err?
  {
    var staged := Stage(fs, asset.downloadUrl, toFile, dir, reply);
    var placed := Place(staged.fs, exe, asset, toFile, app.Tmp(), package, bin, payload);
    var exposed := Expose(placed.fs, app, exe, package.binName, alias, bin);
    ThenTrace(placed, exposed);
    ThenTrace(staged, Then(placed, exposed));
    Then(staged, Then(placed, exposed))
  }

  /**
   * A successful delivery leaves the binary in its version directory and
   * the `bin` link (and the alias link) on it, and neither the directory nor
   * the binary is a link.
   */
  lemma DeliverLinks(fs: Fs, app: AppDir, exe: string, asset: Release.AppAsset, package: Catalog.Package,
                     version: string, alias: Option<string>, toFile: Path, reply: Http.Reply, payload: Archive.Payload)
    requires SimpleName(package.name) && SimpleName(version) && SimpleName(package.binName)
    requires alias.Some? ==> SimpleName(alias.value)
    requires PackageDir(app, package.name, version) !in fs.links
    requires PackageBin(app, package.name, version, package.binName, exe) !in fs.links
    requires Deliver(fs, app, exe, asset, package, alias, toFile, PackageDir(app, package.name, version),
                     PackageBin(app, package.name, version, package.binName, exe), reply, payload).result.Ok?
    ensures var dir := PackageDir(app, package.name, version);
      var bin := PackageBin(app, package.name, version, package.binName, exe);
      var r := Deliver(fs, app, exe, asset, package, alias, toFile, dir, bin, reply, payload);
      && bin in r.fs.files && bin !in r.fs.links
      && dir in r.fs.dirs && dir !in r.fs.links
      && BinLink(app, package.binName, exe) in r.fs.links && r.fs.links[BinLink(app, package.binName, exe)] == bin
      && (alias.Some? ==> AliasLink(app, alias.value, exe) in r.fs.links
                          && r.fs.links[AliasLink(app, alias.value, exe)] == bin)
  {
    var dir := PackageDir(app, package.name, version);
    var bin := PackageBin(app, package.name, version, package.binName, exe);
    SimpleLayout(app, package.name, version, package.binName, exe);
    assert StartsWith(bin, app.Packages()) && StartsWith(dir, app.Packages());
    assert !StartsWith(dir, app.Tmp()) by {
      assert dir[|app.home|] == Normal("packages");
    }
    LinkEntriesApart(app, package.binName, alias.GetOr(package.binName), exe);
    var staged := Stage(fs, asset.downloadUrl, toFile, dir, reply);
    var placed := Place(staged.fs, exe, asset, toFile, app.Tmp(), package, bin, payload);
    var exposed := Expose(placed.fs, app, exe, package.binName, alias, bin);
    assert Deliver(fs, app, exe, asset, package, alias, toFile, dir, bin, reply, payload) == Then(staged, Then(placed, exposed));
    assert staged.result.Ok? && placed.result.Ok? && exposed.result.Ok?;
    assert bin in placed.fs.files && dir in placed.fs.dirs;
    ExposeLinks(placed.fs, app, exe, package.binName, alias, bin);
  }

  /** The version directory and its binary are both there. */
  predicate AlreadyThere(fs: Fs, dir: Path, bin: Path) {
    Exists(fs, dir) && IsDir(fs, dir) && Exists(fs, bin) && IsFile(fs, bin)
  }

  /** Removes the installed version when forced to, then delivers. */
  function Replace(fs: Fs, app: AppDir, exe: string, asset: Release.AppAsset, package: Catalog.Package,
                   alias: Option<string>, force: bool, toFile: Path, dir: Path, bin: Path,
                   reply: Http.Reply, payload: Archive.Payload): (r: Run)
    ensures !Compiles(r.trace)
    ensures !DirectExe(asset.name, exe) && Archive.GetFileType(Parse(asset.name)).Unknown? ==> r.result.Err?
  {
    var prior := if force then RemoveTreeIfDir(fs, dir) else Skip(fs);
    var delivered := Deliver(prior.fs, app, exe, asset, package, alias, toFile, dir, bin, reply, payload);
    ThenTrace(prior, delivered);
    Then(prior, delivered)
  }

  /**
   * The body of `install_package` once the paths are known: drop a stale
   * download at `toFile`; without `force`, a version whose directory and
   * binary are in place is reported as installed and left alone; otherwise
   * (after removing the version directory when forced) deliver the asset.
   */
  function InstallInto(fs: Fs, app: AppDir, exe: string, asset: Release.AppAsset, package: Catalog.Package,
                       version: string, alias: Option<string>, force: bool, toFile: Path, dir: Path, bin: Path,
                       reply: Http.Reply, payload: Archive.Payload): (r: Run)
    ensures !Compiles(r.trace)
  {
    var stale := RemoveStale(fs, toFile);
    if stale.result.Ok? && !force && AlreadyThere(stale.fs, dir, bin) then
      Run(stale.fs, stale.trace + [Said(AlreadyInstalled(package.name, version))], Ok(()))
    else
      var replaced := Replace(stale.fs, app, exe, asset, package, alias, force, toFile, dir, bin, reply, payload);
      ThenTrace(stale, replaced);
      Then(stale, replaced)
  }

  /**
   * `RustBinInstaller::install_package`: requires the release to have an
   * asset, as its caller checks. The asset goes to `tmp/<asset name>`, the
   * binary to `packages/<name>/<version>/<bin name>`.
   */
  function InstallPackage(app: AppDir, exe: string, release: Release.AppRelease, package: Catalog.Package,
                          alias: Option<string>, force: bool, fs: Fs, reply: Http.Reply, payload: Archive.Payload): (r: Run)
    requires |release.assets| > 0
    ensures !Compiles(r.trace)
  {
    InstallInto(fs, app, exe, release.assets[0], package, release.version, alias, force,
                Child(app.Tmp(), release.assets[0].name), PackageDir(app, package.name, release.version),
                PackageBin(app, package.name, release.version, package.binName, exe), reply, payload)
  }

  /** The download target in `tmp` is neither the version directory nor the binary. */
  lemma DownloadApart(app: AppDir, assetName: string, name: string, version: string, binName: string, exe: string)
    requires SimpleName(assetName) && SimpleName(name) && SimpleName(version) && SimpleName(binName)
    ensures var toFile := Child(app.Tmp(), assetName);
      toFile != PackageDir(app, name, version) && toFile != PackageBin(app, name, version, binName, exe)
  {
    var dir := PackageDir(app, name, version);
    var bin := PackageBin(app, name, version, binName, exe);
    var toFile := Child(app.Tmp(), assetName);
    SimpleLayout(app, name, version, binName, exe);
    ChildSimple(app.Tmp(), assetName);
    assert StartsWith(toFile, app.Tmp()) by { assert toFile[..|app.Tmp()|] == app.Tmp(); }
    assert StartsWith(bin, app.Packages()) by { assert bin[..|app.Packages()|] == app.Packages(); }
    assert StartsWith(dir, app.Packages()) by { assert dir[..|app.Packages()|] == app.Packages(); }
    UnderArea(app.home, "tmp", toFile);
    UnderArea(app.home, "packages", bin);
    UnderArea(app.home, "packages", dir);
  }

  /** Removing a stale download elsewhere keeps an installed version in place. */
  lemma StaleKeepsInstalled(fs: Fs, toFile: Path, dir: Path, bin: Path)
    requires toFile != dir && toFile != bin
    requires dir in fs.dirs && dir !in fs.links && bin in fs.files && bin !in fs.links
    ensures var stale := RemoveStale(fs, toFile);
      && NoFetch(stale.trace) && stale.fs.dirs == fs.dirs
      && (stale.result.Ok? ==> AlreadyThere(stale.fs, dir, bin))
  {
  }

  /**
   * Without `force`, an installed version (its directory and binary in
   * place, neither a link) is not downloaded again and no directory changes;
   * success is reported as "already installed".
   */
  lemma SkipWhenInstalled(fs: Fs, app: AppDir, exe: string, asset: Release.AppAsset, package: Catalog.Package,
                          version: string, alias: Option<string>, toFile: Path, dir: Path, bin: Path,
                          reply: Http.Reply, payload: Archive.Payload)
    requires toFile != dir && toFile != bin
    requires dir in fs.dirs && dir !in fs.links && bin in fs.files && bin !in fs.links
    ensures var r := InstallInto(fs, app, exe, asset, package, version, alias, false, toFile, dir, bin, reply, payload);
      && NoFetch(r.trace) && r.fs.dirs == fs.dirs
      && (r.result.Ok? ==> |r.trace| > 0 && r.trace[|r.trace| - 1] == Said(AlreadyInstalled(package.name, version)))
  {
    StaleKeepsInstalled(fs, toFile, dir, bin);
  }

  /**
   * With `force`, an installed version's directory is removed first and the
   * download follows right after.
   */
  lemma ForceRemovesOldVersionFirst(fs: Fs, app: AppDir, exe: string, asset: Release.AppAsset, package: Catalog.Package,
                                    version: string, alias: Option<string>, toFile: Path, dir: Path, bin: Path,
                                    reply: Http.Reply, payload: Archive.Payload)
    requires !IsFile(fs, toFile)
    requires dir in fs.dirs && dir !in fs.links && Removable(fs, dir)
    ensures var r := InstallInto(fs, app, exe, asset, package, version, alias, true, toFile, dir, bin, reply, payload);
      |r.trace| >= 2 && r.trace[0] == RemovedTree(dir) && r.trace[1] == Fetched(asset.downloadUrl, toFile)
  {
    var stale := RemoveStale(fs, toFile);
    assert stale.trace == [] && stale.fs == fs && stale.result.Ok?;
    ForcedReplace(fs, app, exe, asset, package, alias, toFile, dir, bin, reply, payload);
    var replaced := Replace(fs, app, exe, asset, package, alias, true, toFile, dir, bin, reply, payload);
    assert InstallInto(fs, app, exe, asset, package, version, alias, true, toFile, dir, bin, reply, payload).trace
        == [] + replaced.trace;
  }

  /** The forced replacement removes the existing version directory, then downloads. */
  lemma ForcedReplace(fs: Fs, app: AppDir, exe: string, asset: Release.AppAsset, package: Catalog.Package,
                      alias: Option<string>, toFile: Path, dir: Path, bin: Path,
                      reply: Http.Reply, payload: Archive.Payload)
    requires dir in fs.dirs && dir !in fs.links && Removable(fs, dir)
    ensures var r := Replace(fs, app, exe, asset, package, alias, true, toFile, dir, bin, reply, payload);
      |r.trace| >= 2 && r.trace[0] == RemovedTree(dir) && r.trace[1] == Fetched(asset.downloadUrl, toFile)
  {
    var prior := RemoveTreeIfDir(fs, dir);
    assert prior.result.Ok? && prior.trace == [RemovedTree(dir)];
    var delivered := Deliver(prior.fs, app, exe, asset, package, alias, toFile, dir, bin, reply, payload);
    assert Replace(fs, app, exe, asset, package, alias, true, toFile, dir, bin, reply, payload).trace
        == [RemovedTree(dir)] + delivered.trace;
  }

  /**
   * With a locked path in the installed version's tree, `remove_dir_all`
   * fails and the forced install stops there: nothing is downloaded and
   * nothing changes.
   */
  lemma ForceStopsAtLockedTree(fs: Fs, app: AppDir, exe: string, asset: Release.AppAsset, package: Catalog.Package,
                               version: string, alias: Option<string>, toFile: Path, dir: Path, bin: Path,
                               reply: Http.Reply, payload: Archive.Payload, q: Path)
    requires !IsFile(fs, toFile)
    requires dir in fs.dirs && dir !in fs.links && q in fs.locked && StartsWith(q, dir)
    ensures var r := InstallInto(fs, app, exe, asset, package, version, alias, true, toFile, dir, bin, reply, payload);
      r.result.Err? && r.trace == [RemovedTree(dir)] && r.fs == fs
  {
    var stale := RemoveStale(fs, toFile);
    assert stale.trace == [] && stale.fs == fs && stale.result.Ok?;
    var prior := RemoveTreeIfDir(fs, dir);
    assert prior.result.Err? && prior.trace == [RemovedTree(dir)] && prior.fs == fs;
    assert InstallInto(fs, app, exe, asset, package, version, alias, true, toFile, dir, bin, reply, payload)
        == Replace(fs, app, exe, asset, package, alias, true, toFile, dir, bin, reply, payload);
  }

  /** An asset of unknown type is never installed: a run that downloads it fails. */
  lemma UnknownAssetNeverInstalls(fs: Fs, app: AppDir, exe: string, asset: Release.AppAsset, package: Catalog.Package,
                                  version: string, alias: Option<string>, force: bool, toFile: Path, dir: Path, bin: Path,
                                  reply: Http.Reply, payload: Archive.Payload)
    requires !DirectExe(asset.name, exe) && Archive.GetFileType(Parse(asset.name)).Unknown?
    ensures var r := InstallInto(fs, app, exe, asset, package, version, alias, force, toFile, dir, bin, reply, payload);
      r.result.Ok? ==> NoFetch(r.trace)
  {
    var stale := RemoveStale(fs, toFile);
    assert NoFetch(stale.trace);
    var replaced := Replace(stale.fs, app, exe, asset, package, alias, force, toFile, dir, bin, reply, payload);
    assert replaced.result.Err?;
  }

  /**
   * An install that downloaded and reports success has put the binary in
   * its version directory and pointed the `bin` link (and the alias link)
   * at it.
   */
  lemma InstallLinksBinary(app: AppDir, exe: string, release: Release.AppRelease, package: Catalog.Package,
                           alias: Option<string>, force: bool, fs: Fs, reply: Http.Reply, payload: Archive.Payload)
    requires |release.assets| > 0
    requires SimpleName(package.name) && SimpleName(release.version) && SimpleName(package.binName)
    requires alias.Some? ==> SimpleName(alias.value)
    requires PackageDir(app, package.name, release.version) !in fs.links
    requires PackageBin(app, package.name, release.version, package.binName, exe) !in fs.links
    requires var r := InstallPackage(app, exe, release, package, alias, force, fs, reply, payload);
      r.result.Ok? && !NoFetch(r.trace)
    ensures var r := InstallPackage(app, exe, release, package, alias, force, fs, reply, payload);
      var dir := PackageDir(app, package.name, release.version);
      var bin := PackageBin(app, package.name, release.version, package.binName, exe);
      && bin in r.fs.files && bin !in r.fs.links
      && dir in r.fs.dirs && dir !in r.fs.links
      && BinLink(app, package.binName, exe) in r.fs.links && r.fs.links[BinLink(app, package.binName, exe)] == bin
      && (alias.Some? ==> AliasLink(app, alias.value, exe) in r.fs.links
                          && r.fs.links[AliasLink(app, alias.value, exe)] == bin)
  {
    var asset := release.assets[0];
    var toFile := Child(app.Tmp(), asset.name);
    var dir := PackageDir(app, package.name, release.version);
    var bin := PackageBin(app, package.name, release.version, package.binName, exe);
    var stale := RemoveStale(fs, toFile);
    assert NoFetch(stale.trace);
    var prior := if force then RemoveTreeIfDir(stale.fs, dir) else Skip(stale.fs);
    var delivered := Deliver(prior.fs, app, exe, asset, package, alias, toFile, dir, bin, reply, payload);
    assert InstallPackage(app, exe, release, package, alias, force, fs, reply, payload)
        == Then(stale, Then(prior, delivered));
    assert prior.result.Ok? && delivered.result.Ok?;
    assert dir !in prior.fs.links && bin !in prior.fs.links;
    DeliverLinks(prior.fs, app, exe, asset, package, release.version, alias, toFile, reply, payload);
  }

  /** Installing the same version again without `force` downloads nothing. */
  lemma SecondInstallSkips(app: AppDir, exe: string, release: Release.AppRelease, package: Catalog.Package,
                           alias: Option<string>, force: bool, fs: Fs, reply: Http.Reply, payload: Archive.Payload,
                           alias2: Option<string>, reply2: Http.Reply, payload2: Archive.Payload)
    requires |release.assets| > 0 && SimpleName(release.assets[0].name)
    requires SimpleName(package.name) && SimpleName(release.version) && SimpleName(package.binName)
    requires alias.Some? ==> SimpleName(alias.value)
    requires PackageDir(app, package.name, release.version) !in fs.links
    requires PackageBin(app, package.name, release.version, package.binName, exe) !in fs.links
    requires var r := InstallPackage(app, exe, release, package, alias, force, fs, reply, payload);
      r.result.Ok? && !NoFetch(r.trace)
    ensures var first := InstallPackage(app, exe, release, package, alias, force, fs, reply, payload);
      var r := InstallPackage(app, exe, release, package, alias2, false, first.fs, reply2, payload2);
      && NoFetch(r.trace) && r.fs.dirs == first.fs.dirs
      && (r.result.Ok? ==> |r.trace| > 0 && r.trace[|r.trace| - 1] == Said(AlreadyInstalled(package.name, release.version)))
  {
    var first := InstallPackage(app, exe, release, package, alias, force, fs, reply, payload);
    var asset := release.assets[0];
    InstallLinksBinary(app, exe, release, package, alias, force, fs, reply, payload);
    DownloadApart(app, asset.name, package.name, release.version, package.binName, exe);
    SkipWhenInstalled(first.fs, app, exe, asset, package, release.version, alias2, Child(app.Tmp(), asset.name),
                      PackageDir(app, package.name, release.version),
                      PackageBin(app, package.name, release.version, package.binName, exe), reply2, payload2);
  }

  /** Everything the outside world contributes to one `install` call. */
  datatype Remote = Remote(
    pages: seq<Release.ReleasePage>,   // the release listing
    reply: Http.Reply,                 // the asset download
    payload: Archive.Payload,          // the downloaded archive's entries
    answer: Result<string, string>,    // the line typed at the source-build prompt, or the read error
    source: SrcInstaller.Remote)       // what a source build meets

  /** The outcome of an installer step followed by the message the caller prints about it. */
  function Reported(r: Run, success: Note, failure: Release.InstallError -> Note): (d: Done)
    ensures d.fs == r.fs && |d.trace| == |r.trace| + 1 && d.trace[..|r.trace|] == r.trace
    ensures d.trace[|r.trace|] == Said(if r.result.Ok? then success else failure(r.result.error))
    ensures Compiles(d.trace) <==> Compiles(r.trace)
  {
    Done(r.fs, r.trace + [Said(if r.result.Ok? then success else failure(r.result.error))])
  }

  /** The release `install` looks up for a request: the requested version, or the latest. */
  function Found(platform: Request.Platform, package: Catalog.Package, request: Request.InstallRequest,
                 ctx: Request.InstallerContext, remote: Remote): Result<Release.AppRelease, Release.InstallError>
  {
    Release.FindAssets(package, request.version.GetOr(Request.Latest), package.remoteFilePrefix,
                       ctx.rustAbi, platform, remote.pages)
  }

  /**
   * After a yes at the prompt: the source installer's run, followed by the
   * message about its outcome. A build is started exactly when the source
   * installer starts one.
   */
  function FromSource(app: AppDir, exe: string, release: Release.AppRelease, package: Catalog.Package, fs: Fs,
                      source: SrcInstaller.Remote): (r: Done)
    requires release.sourceUrl.Some?
    ensures var s := SrcInstaller.InstallPackage(app, exe, release, package, fs, source);
      && r.fs == s.fs
      && r.trace == s.trace + [Said(if s.result.Ok? then Installed(package.name, release.version)
                                    else SourceInstallFailed(package.name, s.result.error))]
      && (Compiles(r.trace) <==> Compiles(s.trace))
  {
    var s := SrcInstaller.InstallPackage(app, exe, release, package, fs, source);
    var d := Reported(s, Installed(package.name, release.version), e => SourceInstallFailed(package.name, e));
    assert d.trace == s.trace + [d.trace[|s.trace|]];
    d
  }

  /**
   * The prompt `install` shows when only a source archive fits: a read
   * failure ends the install, a `y` hands the release to the source
   * installer and reports its outcome, any other answer ends it quietly.
   */
  function Offer(app: AppDir, exe: string, release: Release.AppRelease, package: Catalog.Package, fs: Fs,
                 answer: Result<string, string>, source: SrcInstaller.Remote): (r: Done)
    requires release.sourceUrl.Some?
    ensures |r.trace| > 0 && r.trace[0] == Said(SourcePrompt)
    ensures answer.Err? ==> r == Done(fs, [Said(SourcePrompt), Said(InputUnavailable)])
    ensures answer.Ok? && !Console.SaysYes(answer.value) ==> r == Done(fs, [Said(SourcePrompt)])
    ensures answer.Ok? && Console.SaysYes(answer.value) ==>
      var d := FromSource(app, exe, release, package, fs, source);
      r.fs == d.fs && r.trace == [Said(SourcePrompt)] + d.trace
    ensures Compiles(r.trace) <==>
      && answer.Ok? && Console.SaysYes(answer.value)
      && Compiles(SrcInstaller.InstallPackage(app, exe, release, package, fs, source).trace)
  {
    match answer
    case Err(_) => Done(fs, [Said(SourcePrompt), Said(InputUnavailable)])
    case Ok(line) =>
      Console.YesIff(line);
      if Console.Normalise(line) == "y" then
        var d := FromSource(app, exe, release, package, fs, source);
        CompilesAfterSaid(Said(SourcePrompt), d.trace);
        Done(d.fs, [Said(SourcePrompt)] + d.trace)
      else Done(fs, [Said(SourcePrompt)])
  }

  /**
   * `Installer::install` for the binary installer: find the release and
   * its assets; install the first asset when there is one; otherwise offer
   * to build the source archive, which happens only when the answer reads
   * `y`; otherwise report that nothing fits. Nothing is returned: the
   * outcome is the trace.
   */
  function Install(app: AppDir, platform: Request.Platform, package: Catalog.Package,
                   request: Request.InstallRequest, ctx: Request.InstallerContext, fs: Fs, remote: Remote): (r: Done)
    ensures var found := Found(platform, package, request, ctx, remote);
      found.Err? ==> r == Done(fs, [Said(AssetsUnavailable(found.error))])
    ensures var found := Found(platform, package, request, ctx, remote);
      found.Ok? && |found.value.assets| > 0 ==>
        var p := InstallPackage(app, platform.exeExtension, found.value, package, request.alias, ctx.force, fs,
                                remote.reply, remote.payload);
        && r.fs == p.fs
        && r.trace == p.trace + [Said(if p.result.Ok? then Installed(package.name, found.value.version)
                                      else InstallFailed(package.name, p.result.error))]
    ensures var found := Found(platform, package, request, ctx, remote);
      found.Ok? && |found.value.assets| == 0 && found.value.sourceUrl.None? ==> r == Done(fs, [Said(NothingToInstall)])
    ensures var found := Found(platform, package, request, ctx, remote);
      found.Ok? && |found.value.assets| == 0 && found.value.sourceUrl.Some? ==>
        && |r.trace| > 0 && r.trace[0] == Said(SourcePrompt)
        && (remote.answer.Err? ==> r == Done(fs, [Said(SourcePrompt), Said(InputUnavailable)]))
        && (remote.answer.Ok? && !Console.SaysYes(remote.answer.value) ==> r == Done(fs, [Said(SourcePrompt)]))
    ensures var found := Found(platform, package, request, ctx, remote);
      found.Ok? && |found.value.assets| == 0 && found.value.sourceUrl.Some? &&
      remote.answer.Ok? && Console.SaysYes(remote.answer.value) ==>
        var d := FromSource(app, platform.exeExtension, found.value, package, fs, remote.source);
        r.fs == d.fs && r.trace == [Said(SourcePrompt)] + d.trace
  {
    var found := Found(platform, package, request, ctx, remote);
    match found
    case Err(e) => Done(fs, [Said(AssetsUnavailable(e))])
    case Ok(release) =>
      if |release.assets| > 0 then
        var r := InstallPackage(app, platform.exeExtension, release, package, request.alias, ctx.force, fs,
                                remote.reply, remote.payload);
        Reported(r, Installed(package.name, release.version), e => InstallFailed(package.name, e))
      else if release.sourceUrl.Some? then Offer(app, platform.exeExtension, release, package, fs, remote.answer, remote.source)
      else Done(fs, [Said(NothingToInstall)])
  }

  /**
   * A build is started only for a release without a matching asset but
   * with a source archive, and only when the user answered yes.
   */
  lemma BuildOnlyOnYes(app: AppDir, platform: Request.Platform, package: Catalog.Package,
                       request: Request.InstallRequest, ctx: Request.InstallerContext, fs: Fs, remote: Remote)
    requires Compiles(Install(app, platform, package, request, ctx, fs, remote).trace)
    ensures var found := Found(platform, package, request, ctx, remote);
      && found.Ok? && |found.value.assets| == 0 && found.value.sourceUrl.Some?
      && remote.answer.Ok? && Console.SaysYes(remote.answer.value)
  {
  }

  /**
   * Conversely, a yes to the prompt for a release with only a source
   * archive starts a build exactly when the source installer gets as far
   * as starting one.
   */
  lemma BuildOnYes(app: AppDir, platform: Request.Platform, package: Catalog.Package,
                   request: Request.InstallRequest, ctx: Request.InstallerContext, fs: Fs, remote: Remote,
                   release: Release.AppRelease)
    requires Found(platform, package, request, ctx, remote) == Ok(release)
    requires |release.assets| == 0 && release.sourceUrl.Some?
    requires remote.answer.Ok? && Console.SaysYes(remote.answer.value)
    ensures Compiles(Install(app, platform, package, request, ctx, fs, remote).trace) <==>
            Compiles(SrcInstaller.InstallPackage(app, platform.exeExtension, release, package, fs, remote.source).trace)
  {
  }
}
