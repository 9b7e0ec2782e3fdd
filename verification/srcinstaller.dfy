/**
 * Installing a Rust package from its source archive: download the zipball
 * of the release, unpack it into the workspace, run `cargo build
 * --workspace --release` in the unpacked tree, and install the binary from
 * `target/release`. The build is injected: it may fail to start, or exit
 * with a status after writing some files.
 */
module SrcInstaller {
  import opened Wrappers
  import opened Paths
  import opened FileSystem
  import opened Trace
  import opened Installer
  import opened Layout
  import Release
  import Catalog
  import Archive
  import Http

  datatype Build = SpawnFailed(reason: string) | Exited(success: bool, produced: set<Path>)

  /** What the outside world does during one source install. */
  datatype Remote = Remote(reply: Http.Reply, payload: Archive.Payload, build: Build)

  /** The downloaded source archive: `tmp/<version>.zip`. */
  function SourceArchive(app: AppDir, version: string): Path {
    Child(app.Tmp(), version + ".zip")
  }

  /** The unpack directory: `tmp/<package name>`. */
  function SourceDir(app: AppDir, name: string): Path {
    Child(app.Tmp(), name)
  }

  /** The build output: `<tree>/target/release/<bin name>` with the platform's extension. */
  function BuiltBin(tree: Path, binName: string, exe: string): Path {
    WithExtension(Child(Child(Child(tree, "target"), "release"), binName), exe)
  }

  /** After a successful build: replace the installed version, copy the binary in, link it, clear the workspace. */
  function Publish(fs: Fs, app: AppDir, exe: string, version: string, package: Catalog.Package, tree: Path): (r: Run)
    ensures NoFetch(r.trace) && !Compiles(r.trace)
    ensures r.result.Ok? ==>
      Copied(BuiltBin(tree, package.binName, exe), PackageBin(app, package.name, version, package.binName, exe)) in r.trace
  {
    var dir := PackageDir(app, package.name, version);
    var bin := PackageBin(app, package.name, version, package.binName, exe);
    var src := BuiltBin(tree, package.binName, exe);
    var prior := RemoveTreeIfDir(fs, dir);
    var made := MakeDirs(prior.fs, dir);
    var copied := Std(made.fs, Copied(src, bin), Copy(made.fs, src, bin));
    var exposed := Expose(copied.fs, app, exe, package.binName, None, bin);
    ThenTrace(copied, exposed);
    ThenTrace(made, Then(copied, exposed));
    ThenTrace(prior, Then(made, Then(copied, exposed)));
    Then(prior, Then(made, Then(copied, exposed)))
  }

  /** Runs the build in the unpacked `tree` and, when it succeeds, publishes its binary. */
  function RunBuild(unpacked: Fs, app: AppDir, exe: string, version: string, package: Catalog.Package,
                    tree: Path, build: Build): (r: Run)
    ensures !(build.Exited? && build.success) ==> NoLink(r.trace)
    ensures build.SpawnFailed? ==> r == Run(unpacked, [Compiled(tree), Said(BuildUnavailable)], Ok(()))
    ensures build.SpawnFailed? ==> r.result.Ok? && Compiles(r.trace)
    ensures build.Exited? && !build.success ==> r.result.Err?
    ensures |r.trace| > 0 && r.trace[0] == Compiled(tree)
  {
    match build
    case SpawnFailed(_) =>
      var r := Run(unpacked, [Compiled(tree), Said(BuildUnavailable)], Ok(()));
      assert r.trace[0].Compiled?;
      r
    case Exited(success, produced) =>
      var built := unpacked.(files := unpacked.files + produced);
      if !success then
        Run(built, [Compiled(tree), Said(BuildFailed(package.name))], Err(Release.GeneralStr("failed to build from source code")))
      else
        Then(Run(built, [Compiled(tree)], Ok(())), Publish(built, app, exe, version, package, tree))
  }

  /** Unpacks the archive and runs the build in its top folder. */
  function UnpackAndBuild(fs: Fs, app: AppDir, exe: string, version: string, package: Catalog.Package, remote: Remote): (r: Run)
    ensures !(remote.build.Exited? && remote.build.success) ==> NoLink(r.trace)
    ensures remote.build.SpawnFailed? ==> (r.result.Ok? <==> Compiles(r.trace))
    ensures remote.build.Exited? && !remote.build.success ==> r.result.Err?
  {
    var archive := SourceArchive(app, version);
    var srcPath := SourceDir(app, package.name);
    match Archive.Decompress(archive, remote.payload)
    case Err(e) => Run(fs, [Extracted(archive, srcPath)], Err(Release.ToolFs(e)))
    case Ok(top) =>
      var unpacked := fs.(files := fs.files + Archive.Unpacked(remote.payload, srcPath));
      var built := RunBuild(unpacked, app, exe, version, package, Child(srcPath, top.GetOr("")), remote.build);
      var extracted := Run(unpacked, [Extracted(archive, srcPath)], Ok(()));
      assert !Compiles(extracted.trace) && NoLink(extracted.trace);
      ThenTrace(extracted, built);
      Then(extracted, built)
  }

  /** Clears what a previous attempt left in the workspace and creates the unpack directory. */
  function ClearWorkspace(fs: Fs, archive: Path, srcPath: Path): (r: Run)
    ensures NoLink(r.trace) && NoFetch(r.trace) && !Compiles(r.trace)
    ensures forall q :: q in r.fs.links ==> q in fs.links
  {
    var stale := RemoveStale(fs, archive);
    var cleared := RemoveTreeIfDir(stale.fs, srcPath);
    var made := MakeDirs(cleared.fs, srcPath);
    ThenTrace(cleared, made);
    ThenTrace(stale, Then(cleared, made));
    Then(stale, Then(cleared, made))
  }

  /** Clears the workspace and downloads the source archive. */
  function Prepare(app: AppDir, version: string, url: string, name: string, fs: Fs, reply: Http.Reply): (r: Run)
    ensures NoLink(r.trace) && !Compiles(r.trace)
    ensures forall q :: q in r.fs.links ==> q in fs.links
  {
    var archive := SourceArchive(app, version);
    var cleared := ClearWorkspace(fs, archive, SourceDir(app, name));
    var fetched := Fetch(cleared.fs, url, archive, reply);
    ThenTrace(cleared, fetched);
    Then(cleared, fetched)
  }

  /**
   * `RustSrcInstaller::install_package`. A build that cannot be started is
   * only logged: nothing is linked, yet the install reports success once it
   * got as far as the build. A build that exits unsuccessfully fails the
   * install before anything is linked.
   */
  function InstallPackage(app: AppDir, exe: string, release: Release.AppRelease, package: Catalog.Package,
                          fs: Fs, remote: Remote): (r: Run)
    requires release.sourceUrl.Some?
    ensures remote.build.SpawnFailed? ==> NoLink(r.trace) && (r.result.Ok? <==> Compiles(r.trace))
    ensures remote.build.Exited? && !remote.build.success ==> r.result.Err? && NoLink(r.trace)
  {
    var prepared := Prepare(app, release.version, release.sourceUrl.value, package.name, fs, remote.reply);
    var built := UnpackAndBuild(prepared.fs, app, exe, release.version, package, remote);
    ThenTrace(prepared, built);
    Then(prepared, built)
  }

  /**
   * A successful publish leaves the binary in its version directory and
   * the `bin` link on it (names are plain, and neither the version
   * directory nor the binary was a link beforehand).
   */
  lemma PublishLinks(fs: Fs, app: AppDir, exe: string, version: string, package: Catalog.Package, tree: Path)
    requires SimpleName(package.name) && SimpleName(version) && SimpleName(package.binName)
    requires PackageDir(app, package.name, version) !in fs.links
    requires PackageBin(app, package.name, version, package.binName, exe) !in fs.links
    requires Publish(fs, app, exe, version, package, tree).result.Ok?
    ensures var r := Publish(fs, app, exe, version, package, tree);
      var bin := PackageBin(app, package.name, version, package.binName, exe);
      && bin in r.fs.files
      && BinLink(app, package.binName, exe) in r.fs.links && r.fs.links[BinLink(app, package.binName, exe)] == bin
      && PackageDir(app, package.name, version) in r.fs.dirs
  {
    var dir := PackageDir(app, package.name, version);
    var bin := PackageBin(app, package.name, version, package.binName, exe);
    var src := BuiltBin(tree, package.binName, exe);
    SimpleLayout(app, package.name, version, package.binName, exe);
    assert StartsWith(bin, app.Packages()) && StartsWith(dir, app.Packages());
    assert !StartsWith(dir, app.Tmp()) by {
      assert dir[|app.home|] == Normal("packages");
    }
    var prior := RemoveTreeIfDir(fs, dir);
    var made := MakeDirs(prior.fs, dir);
    var copied := Std(made.fs, Copied(src, bin), Copy(made.fs, src, bin));
    assert Publish(fs, app, exe, version, package, tree)
        == Then(prior, Then(made, Then(copied, Expose(copied.fs, app, exe, package.binName, None, bin))));
    assert prior.result.Ok? && made.result.Ok? && copied.result.Ok?;
    assert dir in made.fs.dirs;
    assert bin in copied.fs.files && dir in copied.fs.dirs;
    ExposeLinks(copied.fs, app, exe, package.binName, None, bin);
  }

  /** A source install whose build succeeds and that reports success has installed and linked the binary. */
  lemma SourceInstallLinks(app: AppDir, exe: string, release: Release.AppRelease, package: Catalog.Package,
                           fs: Fs, remote: Remote)
    requires release.sourceUrl.Some? && remote.build.Exited? && remote.build.success
    requires SimpleName(package.name) && SimpleName(release.version) && SimpleName(package.binName)
    requires PackageDir(app, package.name, release.version) !in fs.links
    requires PackageBin(app, package.name, release.version, package.binName, exe) !in fs.links
    requires InstallPackage(app, exe, release, package, fs, remote).result.Ok?
    ensures var r := InstallPackage(app, exe, release, package, fs, remote);
      var bin := PackageBin(app, package.name, release.version, package.binName, exe);
      && bin in r.fs.files
      && BinLink(app, package.binName, exe) in r.fs.links && r.fs.links[BinLink(app, package.binName, exe)] == bin
      && PackageDir(app, package.name, release.version) in r.fs.dirs
  {
    var prepared := Prepare(app, release.version, release.sourceUrl.value, package.name, fs, remote.reply);
    var archive := SourceArchive(app, release.version);
    var srcPath := SourceDir(app, package.name);
    var top := Archive.Decompress(archive, remote.payload);
    assert top.Ok?;
    var unpacked := prepared.fs.(files := prepared.fs.files + Archive.Unpacked(remote.payload, srcPath));
    var tree := Child(srcPath, top.value.GetOr(""));
    var built := unpacked.(files := unpacked.files + remote.build.produced);
    PublishLinks(built, app, exe, release.version, package, tree);
  }
}
