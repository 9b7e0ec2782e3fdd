/**
 * The `install` command: requests are handled one after another. For each
 * one the catalog is loaded, the package looked up by name, the workspace
 * `tmp` recreated empty, and the package handed to the installer for its
 * language; only Rust packages have one.
 */
module Execute {
  import opened Wrappers
  import opened Paths
  import opened FileSystem
  import opened Trace
  import opened Installer
  import Strings
  import Catalog
  import Request
  import Release
  import BinInstaller

  /** What the Rust installer does with a package, starting from a file system. */
  type RustInstaller = (Catalog.Package, Fs) -> Done

  /**
   * Removes the workspace when it is a directory and creates it afresh
   * (`remove_dir_all` then `create_dir`); either failure ends the request.
   */
  function ResetTmp(fs: Fs, tmp: Path): (r: Run)
    ensures r.result.Ok? ==> tmp in r.fs.dirs
    ensures r.result.Ok? && IsDir(fs, tmp) && tmp !in fs.links ==>
      && (forall q :: q in r.fs.files ==> !StartsWith(q, tmp))
      && (forall q :: q in r.fs.links ==> !StartsWith(q, tmp))
      && (forall q :: q in r.fs.dirs && StartsWith(q, tmp) ==> q == tmp)
    ensures forall q :: !StartsWith(q, tmp) ==>
      && (q in r.fs.files <==> q in fs.files)
      && (q in r.fs.dirs <==> q in fs.dirs)
      && (q in r.fs.links <==> q in fs.links)
    ensures |r.trace| > 0 && r.trace[|r.trace| - 1] in {RemovedTree(tmp), MadeDir(tmp)}
    ensures IsDir(fs, tmp) ==> r.trace[0] == RemovedTree(tmp)
    ensures Occupied(fs, tmp) && !IsDir(fs, tmp) ==> r.result.Err?
    ensures IsDir(fs, tmp) && tmp !in fs.links && !Removable(fs, tmp) ==> r.result.Err?
  {
    var cleared := if Exists(fs, tmp) && IsDir(fs, tmp) then Std(fs, RemovedTree(tmp), RemoveDirAll(fs, tmp)) else Skip(fs);
    var made := Std(cleared.fs, MadeDir(tmp), CreateDir(cleared.fs, tmp));
    Then(cleared, made)
  }

  /** `lang.to_lowercase() == "rust"` (ASCII case folding). */
  function IsRust(language: Option<string>): (b: bool)
    ensures b <==> language.Some? && |language.value| == 4
                   && forall i :: 0 <= i < 4 ==> Strings.LowerChar(language.value[i]) == "rust"[i]
  {
    language.Some? && Strings.Lower(language.value) == "rust"
  }

  /** The languages that reach the Rust installer are the spellings of "rust" in any letter case. */
  lemma IsRustSpelling(lang: string)
    ensures IsRust(Some(lang)) <==>
      && |lang| == 4
      && lang[0] in {'r', 'R'} && lang[1] in {'u', 'U'} && lang[2] in {'s', 'S'} && lang[3] in {'t', 'T'}
  {
    var low := Strings.Lower(lang);
    if |lang| == 4 {
      assert low == "rust" <==> low[0] == 'r' && low[1] == 'u' && low[2] == 's' && low[3] == 't';
    }
  }

  /** The catalog entry a request names, if the catalog loads and has one. */
  function Lookup(sys: Catalog.CatalogFile, custom: Catalog.CatalogFile, name: string): (r: Option<Catalog.Package>)
    ensures r.Some? ==> r.value.name == name && sys.Parsed?
  {
    match Catalog.LoadConfig(sys, custom)
    case Err(_) => None
    case Ok(k) => Catalog.FindPackage(k.packages, name)
  }

  /**
   * `install_one`: announce the request, load the catalog, look the
   * package up, reset the workspace and dispatch on the package's language.
   * A failure at any step is reported and ends this request only.
   */
  function InstallOne(app: AppDir, sys: Catalog.CatalogFile, custom: Catalog.CatalogFile,
                      request: Request.InstallRequest, fs: Fs, rust: RustInstaller): (r: Done)
    ensures |r.trace| > 0 && r.trace[0] == Said(Begin(request.name))
    ensures Catalog.LoadConfig(sys, custom).Err? ==>
      r == Done(fs, [Said(Begin(request.name)), Said(MetadataUnavailable)])
    ensures Catalog.LoadConfig(sys, custom).Ok? && Lookup(sys, custom, request.name).None? ==>
      r == Done(fs, [Said(Begin(request.name)), Said(UnknownPackage(request.name))])
    ensures Lookup(sys, custom, request.name).Some? ==>
      var package := Lookup(sys, custom, request.name).value;
      var reset := ResetTmp(fs, app.Tmp());
      && |r.trace| > |reset.trace| && r.trace[1..|reset.trace| + 1] == reset.trace
      && (reset.result.Err? ==> r.fs == reset.fs && r.trace[|r.trace| - 1] == Said(TmpUnavailable))
      && (reset.result.Ok? && !IsRust(package.language) ==> r.fs == reset.fs)
      && (reset.result.Ok? && IsRust(package.language) ==> r.fs == rust(package, reset.fs).fs)
  {
    var begin := [Said(Begin(request.name))];
    match Catalog.LoadConfig(sys, custom)
    case Err(_) => Done(fs, begin + [Said(MetadataUnavailable)])
    case Ok(k) =>
      match Catalog.FindPackage(k.packages, request.name)
      case None => Done(fs, begin + [Said(UnknownPackage(request.name))])
      case Some(package) =>
        var reset := ResetTmp(fs, app.Tmp());
        var before := begin + reset.trace;
        assert before[1..|reset.trace| + 1] == reset.trace;
        if reset.result.Err? then Done(reset.fs, before + [Said(TmpUnavailable)])
        else match package.language
          case None => Done(reset.fs, before)
          case Some(lang) =>
            if Strings.Lower(lang) == "rust" then
              var d := rust(package, reset.fs);
              Done(d.fs, before + d.trace)
            else Done(reset.fs, before + [Said(UnsupportedLanguage(lang))])
  }

  /**
   * `install`: every request in order, each starting from the file system
   * the previous one left, whatever its outcome. `rust[i]` is the Rust
   * installer as the i-th request meets it.
   */
  function Batch(app: AppDir, sys: Catalog.CatalogFile, custom: Catalog.CatalogFile,
                 requests: seq<Request.InstallRequest>, fs: Fs, rust: seq<RustInstaller>): (r: seq<Done>)
    requires |rust| == |requests|
    ensures |r| == |requests|
    ensures |requests| > 0 ==> r[0] == InstallOne(app, sys, custom, requests[0], fs, rust[0])
    ensures forall i :: 0 < i < |requests| ==> r[i] == InstallOne(app, sys, custom, requests[i], r[i - 1].fs, rust[i])
    decreases |requests|
  {
    if |requests| == 0 then []
    else
      var first := InstallOne(app, sys, custom, requests[0], fs, rust[0]);
      var rest := Batch(app, sys, custom, requests[1..], first.fs, rust[1..]);
      [first] + rest
  }

  /** Every request is announced and attempted, in order, whatever happened before it. */
  lemma {:induction false} EveryRequestAttempted(app: AppDir, sys: Catalog.CatalogFile, custom: Catalog.CatalogFile,
                                                  requests: seq<Request.InstallRequest>, fs: Fs, rust: seq<RustInstaller>)
    requires |rust| == |requests|
    ensures var r := Batch(app, sys, custom, requests, fs, rust);
      forall i :: 0 <= i < |requests| ==> |r[i].trace| > 0 && r[i].trace[0] == Said(Begin(requests[i].name))
  {
    var r := Batch(app, sys, custom, requests, fs, rust);
    forall i | 0 <= i < |requests| ensures |r[i].trace| > 0 && r[i].trace[0] == Said(Begin(requests[i].name)) {
      if i == 0 {
        assert r[0] == InstallOne(app, sys, custom, requests[0], fs, rust[0]);
      } else {
        assert r[i] == InstallOne(app, sys, custom, requests[i], r[i - 1].fs, rust[i]);
      }
    }
  }

  /** The Rust installer of the binary-release kind, as one request meets it. */
  function RustFor(app: AppDir, platform: Request.Platform, ctx: Request.InstallerContext,
                   request: Request.InstallRequest, remote: BinInstaller.Remote): RustInstaller
  {
    (package: Catalog.Package, fs: Fs) => BinInstaller.Install(app, platform, package, request, ctx, fs, remote)
  }

  /** The command as the program runs it, with the binary installer for Rust packages. */
  function InstallAll(app: AppDir, platform: Request.Platform, ctx: Request.InstallerContext,
                      sys: Catalog.CatalogFile, custom: Catalog.CatalogFile,
                      requests: seq<Request.InstallRequest>, fs: Fs, remotes: seq<BinInstaller.Remote>): (r: seq<Done>)
    requires |remotes| == |requests|
    ensures |r| == |requests|
    ensures forall i :: 0 <= i < |r| ==>
      r[i] == InstallOne(app, sys, custom, requests[i], if i == 0 then fs else r[i - 1].fs,
                         RustFor(app, platform, ctx, requests[i], remotes[i]))
  {
    var rust := seq(|requests|, i requires 0 <= i < |requests| => RustFor(app, platform, ctx, requests[i], remotes[i]));
    assert forall i :: 0 <= i < |requests| ==> rust[i] == RustFor(app, platform, ctx, requests[i], remotes[i]);
    Batch(app, sys, custom, requests, fs, rust)
  }
}
