/**
 * Finding out what is installed: every entry of `bin` that leads into
 * `packages/<name>/<version>/...` names an installed package, provided the
 * catalog knows `<name>`. On Unix an entry leads there through its symbolic
 * link; on Windows through the other hard links of the same file.
 */
module Helper {
  import opened Wrappers
  import opened Paths
  import opened FileSystem
  import Strings
  import Catalog
  import Layout

  datatype InstalledPackage = InstalledPackage(package: Catalog.Package, version: string)

  /**
   * The catalog keyed by package name, as a `HashMap` collected from the
   * package list: when two packages share a name, the later one wins.
   */
  function PackageMap(ps: seq<Catalog.Package>): (m: map<string, Catalog.Package>)
    ensures m.Keys == set p | p in ps :: p.name
    ensures forall n | n in m :: m[n] in ps && m[n].name == n
    decreases |ps|
  {
    if |ps| == 0 then map[]
    else
      var init := ps[..|ps| - 1];
      var last := ps[|ps| - 1];
      assert ps == init + [last];
      PackageMap(init)[last.name := last]
  }

  /** A package that no later entry shares a name with is the one the map holds. */
  lemma {:induction false} PackageMapLastWins(ps: seq<Catalog.Package>, i: nat)
    requires i < |ps| && forall j :: i < j < |ps| ==> ps[j].name != ps[i].name
    ensures ps[i].name in PackageMap(ps) && PackageMap(ps)[ps[i].name] == ps[i]
    decreases |ps|
  {
    if i < |ps| - 1 {
      var init := ps[..|ps| - 1];
      assert init[i] == ps[i];
      assert forall j :: i < j < |init| ==> init[j] == ps[j];
      PackageMapLastWins(init, i);
    }
  }

  /**
   * Where the map and the install lookup part ways: a name listed twice is
   * installed from its first entry but attributed to its last.
   */
  lemma MapPrefersLastEntry(a: Catalog.Package, b: Catalog.Package)
    requires a.name == b.name
    ensures Catalog.FindPackage([a, b], a.name) == Some(a)
    ensures a.name in PackageMap([a, b]) && PackageMap([a, b])[a.name] == b
  {
    assert [a, b][0] == a;
    PackageMapLastWins([a, b], 1);
  }

  /** `p` and its ancestors, nearest first, as `Path::ancestors` yields them. */
  function Ancestors(p: Path): (r: seq<Path>)
    ensures 0 < |r| <= |p| + 1 && r[0] == p
    ensures forall i :: 0 <= i < |r| ==> r[i] == p[..|p| - i]
    ensures |r| > 1 <==> Parent(p).Some?
    ensures |r| > 1 ==> Parent(p) == Some(r[1])
    ensures Normalised(p) ==> |r| == (if IsAnchored(p) then |p| else |p| + 1)
    decreases |p|
  {
    match Parent(p)
    case None => [p]
    case Some(q) =>
      assert Normalised(p) ==> Normalised(q);
      var rest := Ancestors(q);
      assert forall i :: 0 <= i < |rest| ==> rest[i] == p[..|p| - (i + 1)];
      assert |q| > 0 ==> q[0] == p[0];
      [p] + rest
  }

  /**
   * The walk up the ancestors of a link target: `child` trails one step
   * behind; the first ancestor equal to `dir` stops the walk with the
   * trailing child.
   */
  function Walk(anc: seq<Path>, dir: Path, i: nat, child: Path): (r: Option<Path>)
    ensures r.Some? ==> r.value == child || exists k :: i <= k < |anc| - 1 && r.value == anc[k]
    ensures r.Some? <==> exists k :: i <= k < |anc| && anc[k] == dir
    decreases |anc| - i
  {
    if i >= |anc| then None
    else if anc[i] == dir then Some(child)
    else Walk(anc, dir, i + 1, anc[i])
  }

  /** The ancestor of `p` just below `dir`, or `p` itself when it is `dir`, found by the walk. */
  function ChildBelow(p: Path, dir: Path): (r: Option<Path>)
    ensures r.Some? <==> dir in Ancestors(p)
    ensures r.Some? ==> StartsWith(p, r.value)
  {
    Walk(Ancestors(p), dir, 0, p)
  }

  lemma {:induction false} WalkFinds(anc: seq<Path>, dir: Path, i: nat, child: Path, j: nat)
    requires i <= j < |anc| && anc[j] == dir
    requires forall k :: i <= k < j ==> anc[k] != dir
    requires i > 0 ==> child == anc[i - 1]
    ensures Walk(anc, dir, i, child) == Some(if j == i then child else anc[j - 1])
    decreases j - i
  {
    if i < j {
      WalkFinds(anc, dir, i + 1, anc[i], j);
    }
  }

  /**
   * For a target in the normalised form and below `dir`, the walk stops at
   * the component right below `dir`.
   */
  lemma ChildBelowIs(p: Path, dir: Path)
    requires Normalised(p) && StartsWith(p, dir) && (IsAnchored(p) ==> |dir| > 0)
    ensures ChildBelow(p, dir) == Some(if |p| == |dir| then p else p[..|dir| + 1])
  {
    var anc := Ancestors(p);
    var j := |p| - |dir|;
    assert anc[j] == dir;
    forall k | 0 <= k < j ensures anc[k] != dir {
      assert |anc[k]| == |p| - k;
    }
    WalkFinds(anc, dir, 0, p, j);
  }

  /** A walk that stops on a named child leaves a parent for the version. */
  lemma WalkLeavesParent(p: Path, dir: Path)
    requires ChildBelow(p, dir).Some? && FileName(ChildBelow(p, dir).value).Some?
    ensures Parent(p).Some?
  {
  }

  /**
   * The package a link target belongs to: the name right below `dir` must
   * be in the catalog map, and the version is the name of the target's
   * parent, however deep the target lies.
   */
  function Attribute(p: Path, dir: Path, pm: map<string, Catalog.Package>): (r: Option<InstalledPackage>)
  {
    match ChildBelow(p, dir)
    case None => None
    case Some(child) =>
      match FileName(child)
      case None => None
      case Some(name) =>
        if name !in pm then None
        else
          WalkLeavesParent(p, dir);
          match FileName(Parent(p).value)
          case None => None
          case Some(version) => Some(InstalledPackage(pm[name], version))
  }

  /**
   * For a normalised target strictly below `dir`: attributed exactly when
   * the component right below `dir` is a catalog name and the parent has a
   * name, which becomes the version.
   */
  lemma AttributeIff(p: Path, dir: Path, pm: map<string, Catalog.Package>)
    requires Normalised(p) && StartsWith(p, dir) && |p| > |dir| && (IsAnchored(p) ==> |dir| > 0)
    ensures Attribute(p, dir, pm).Some? <==>
      p[|dir|].Normal? && p[|dir|].name in pm && FileName(p[..|p| - 1]).Some?
    ensures Attribute(p, dir, pm).Some? ==>
      Attribute(p, dir, pm).value == InstalledPackage(pm[p[|dir|].name], FileName(p[..|p| - 1]).value)
  {
    ChildBelowIs(p, dir);
    var child := p[..|dir| + 1];
    assert FileName(child) == if p[|dir|].Normal? then Some(p[|dir|].name) else None;
    if FileName(child).Some? {
      WalkLeavesParent(p, dir);
    }
  }

  /** `get_installed_package` on Unix: the entry must be an existing symbolic link. */
  function FromSymlink(fs: Fs, file: Path, dir: Path, pm: map<string, Catalog.Package>): (r: Option<InstalledPackage>)
    ensures r.Some? ==> file in fs.links && Exists(fs, file) && StartsWith(fs.links[file], dir)
  {
    if Exists(fs, file) && IsSymlink(fs, file) then
      var p := fs.links[file];
      if StartsWith(p, dir) then Attribute(p, dir, pm) else None
    else None
  }

  /**
   * `get_installed_package` on Windows: the file must exist and have at
   * least two hard links; the first of them under `dir` whose walk reaches
   * `dir` decides.
   */
  function FromHardlinks(exists_: bool, hardlinks: Result<seq<Path>, string>, dir: Path,
                         pm: map<string, Catalog.Package>): (r: Result<Option<InstalledPackage>, string>)
    ensures exists_ && hardlinks.Ok? && |hardlinks.value| < 2 ==> r.Err?
    ensures !exists_ ==> r == Ok(None)
    ensures exists_ && hardlinks.Err? ==> r == Err(hardlinks.error)
  {
    if !exists_ then Ok(None)
    else match hardlinks
      case Err(e) => Err(e)
      case Ok(ps) => if |ps| < 2 then Err("the given file is not a hardlink") else Ok(FirstOwner(ps, dir, pm))
  }

  /** The attribution of the first path whose walk reaches `dir`; later paths are never looked at. */
  function FirstOwner(ps: seq<Path>, dir: Path, pm: map<string, Catalog.Package>): (r: Option<InstalledPackage>)
    ensures (forall k :: 0 <= k < |ps| ==> !StartsWith(ps[k], dir)) ==> r.None?
    ensures r.Some? ==> exists k :: 0 <= k < |ps| && StartsWith(ps[k], dir) && r == Attribute(ps[k], dir, pm)
    decreases |ps|
  {
    if |ps| == 0 then None
    else if StartsWith(ps[0], dir) && ChildBelow(ps[0], dir).Some? then Attribute(ps[0], dir, pm)
    else FirstOwner(ps[1..], dir, pm)
  }

  /** Only the first hard link under `dir` is examined, even when it names no catalog package. */
  lemma {:induction false} FirstOwnerIsFirstUnder(ps: seq<Path>, dir: Path, pm: map<string, Catalog.Package>, k: nat)
    requires k < |ps| && Normalised(ps[k]) && StartsWith(ps[k], dir) && (IsAnchored(ps[k]) ==> |dir| > 0)
    requires forall j :: 0 <= j < k ==> !StartsWith(ps[j], dir)
    ensures FirstOwner(ps, dir, pm) == Attribute(ps[k], dir, pm)
    decreases k
  {
    ChildBelowIs(ps[k], dir);
    if k > 0 {
      assert !StartsWith(ps[0], dir);
      FirstOwnerIsFirstUnder(ps[1..], dir, pm, k - 1);
    }
  }

  predicate IsLineEnd(c: char) { c == '\r' || c == '\n' }

  /** A Windows path text that starts with a drive (`C:`) or a UNC/verbatim prefix (`\\`). */
  predicate HasDrive(t: string) {
    || (|t| >= 2 && (('a' <= t[0] <= 'z') || ('A' <= t[0] <= 'Z')) && t[1] == ':')
    || (|t| >= 2 && t[0] == '\\' && t[1] == '\\')
  }

  /**
   * The line handling of `get_hardlinks`, on path texts: when the packages
   * directory starts with a drive, each line loses its surrounding `\r` and
   * `\n` and a line without a drive gets the packages directory's drive in
   * front; otherwise the lines are used as read, line ends included.
   */
  function HardlinkTexts(lines: seq<string>, drive: Option<string>): (r: seq<string>)
    ensures |r| == |lines|
    ensures drive.None? ==> r == lines
    ensures drive.Some? ==> forall i :: 0 <= i < |r| ==>
      r[i] == (var t := Strings.TrimBy(lines[i], IsLineEnd); if HasDrive(t) then t else drive.value + t)
  {
    match drive
    case None => lines
    case Some(d) =>
      seq(|lines|, i requires 0 <= i < |lines| =>
        var t := Strings.TrimBy(lines[i], IsLineEnd); if HasDrive(t) then t else d + t)
  }

  /** With a drive, every resulting path carries a drive and no line end survives at its end. */
  lemma HardlinkTextsCarryDrive(lines: seq<string>, drive: string)
    requires HasDrive(drive) && !IsLineEnd(drive[|drive| - 1])
    ensures var r := HardlinkTexts(lines, Some(drive));
      forall i :: 0 <= i < |r| ==> HasDrive(r[i]) && (|r[i]| > 0 ==> !IsLineEnd(r[i][|r[i]| - 1]))
  {
    var r := HardlinkTexts(lines, Some(drive));
    forall i | 0 <= i < |r| ensures HasDrive(r[i]) && (|r[i]| > 0 ==> !IsLineEnd(r[i][|r[i]| - 1])) {
      var t := Strings.TrimBy(lines[i], IsLineEnd);
      if !HasDrive(t) {
        assert r[i] == drive + t;
        assert r[i][0] == drive[0] && r[i][1] == drive[1];
        if |t| == 0 {
          assert r[i] == drive;
        } else {
          assert r[i][|r[i]| - 1] == t[|t| - 1];
        }
      }
    }
  }

  /** The platform: Unix links, or Windows hard links as `fsutil` lists them for each file. */
  datatype Host = Unix(fs: Fs) | Windows(fs: Fs, hardlinks: Path -> Result<seq<Path>, string>)

  /** `get_installed_package` for the host's platform. */
  function LookupEntry(host: Host, file: Path, dir: Path, pm: map<string, Catalog.Package>): Result<Option<InstalledPackage>, string> {
    match host
    case Unix(fs) => Ok(FromSymlink(fs, file, dir, pm))
    case Windows(fs, hardlinks) => FromHardlinks(Exists(fs, file), hardlinks(file), dir, pm)
  }

  /** What `next_entry` yields for the `bin` directory: an entry, or an error that ends the listing. */
  datatype DirEntry = Entry(path: Path) | ListError(message: string)

  /** The entries before the first listing error. */
  function Listed(entries: seq<DirEntry>): (k: nat)
    ensures k <= |entries| && (k < |entries| ==> entries[k].ListError?)
    ensures forall i :: 0 <= i < k ==> entries[i].Entry?
    decreases |entries|
  {
    if |entries| == 0 || entries[0].ListError? then 0 else 1 + Listed(entries[1..])
  }

  /**
   * The scan loop of `get_installed_packages`: each attributed entry is
   * kept, in listing order; an entry whose lookup fails is skipped; a
   * listing error ends the scan, keeping what was found so far.
   */
  function Collect(entries: seq<DirEntry>, host: Host, dir: Path, pm: map<string, Catalog.Package>): (r: seq<InstalledPackage>)
    ensures |r| <= Listed(entries)
    ensures forall ip :: ip in r ==> exists i :: 0 <= i < Listed(entries) && LookupEntry(host, entries[i].path, dir, pm) == Ok(Some(ip))
    ensures forall i :: 0 <= i < Listed(entries) && LookupEntry(host, entries[i].path, dir, pm).Ok? &&
                        LookupEntry(host, entries[i].path, dir, pm).value.Some? ==>
                          LookupEntry(host, entries[i].path, dir, pm).value.value in r
    decreases |entries|
  {
    if |entries| == 0 then []
    else match entries[0]
      case ListError(_) => []
      case Entry(p) =>
        var rest := Collect(entries[1..], host, dir, pm);
        assert forall i :: 1 <= i < Listed(entries) ==> entries[1..][i - 1] == entries[i];
        match LookupEntry(host, p, dir, pm)
        case Ok(Some(ip)) => [ip] + rest
        case _ => rest
  }

  /** Whatever follows a listing error is never scanned. */
  lemma {:induction false} CollectStopsAtError(a: seq<DirEntry>, e: string, b: seq<DirEntry>, host: Host, dir: Path,
                                               pm: map<string, Catalog.Package>)
    ensures Collect(a + [ListError(e)] + b, host, dir, pm) == Collect(a, host, dir, pm)
    decreases |a|
  {
    if |a| == 0 {
      assert (a + [ListError(e)] + b)[0] == ListError(e);
    } else {
      assert (a + [ListError(e)] + b)[0] == a[0];
      assert (a + [ListError(e)] + b)[1..] == a[1..] + [ListError(e)] + b;
      CollectStopsAtError(a[1..], e, b, host, dir, pm);
    }
  }

  /**
   * `get_installed_packages`: load the catalog, list `bin` and scan it.
   * A catalog or listing failure is the command's error.
   */
  function GetInstalledPackages(app: AppDir, sys: Catalog.CatalogFile, custom: Catalog.CatalogFile,
                                listing: Result<seq<DirEntry>, string>, host: Host): (r: Result<seq<InstalledPackage>, string>)
    ensures Catalog.LoadConfig(sys, custom).Err? ==> r.Err?
    ensures Catalog.LoadConfig(sys, custom).Ok? && listing.Err? ==> r == Err(listing.error)
    ensures r.Ok? ==> listing.Ok? && Catalog.LoadConfig(sys, custom).Ok?
  {
    match Catalog.LoadConfig(sys, custom)
    case Err(_) => Err("failed to load metadata")
    case Ok(k) =>
      match listing
      case Err(e) => Err(e)
      case Ok(entries) => Ok(Collect(entries, host, app.Packages(), PackageMap(k.packages)))
  }

  /**
   * What an install leaves behind is read back: the `bin` entry that links
   * to `packages/<name>/<version>/<bin>` is attributed to the catalog
   * package `<name>` at `<version>`.
   */
  lemma InstalledRoundTrip(fs: Fs, app: AppDir, name: string, version: string, binName: string, exe: string,
                           pm: map<string, Catalog.Package>)
    requires Normalised(app.home)
    requires SimpleName(name) && SimpleName(version) && SimpleName(binName)
    requires name in pm
    requires var link := Layout.BinLink(app, binName, exe);
      link in fs.links && fs.links[link] == Layout.PackageBin(app, name, version, binName, exe)
      && Layout.PackageBin(app, name, version, binName, exe) in fs.files
      && Layout.PackageBin(app, name, version, binName, exe) !in fs.links
    ensures LookupEntry(Unix(fs), Layout.BinLink(app, binName, exe), app.Packages(), pm)
         == Ok(Some(InstalledPackage(pm[name], version)))
  {
    var bin := Layout.PackageBin(app, name, version, binName, exe);
    var dir := app.Packages();
    BinAttributed(app, name, version, binName, exe, pm);
    assert Exists(fs, Layout.BinLink(app, binName, exe));
  }

  /** The binary's path in the packages tree is attributed to its package and version. */
  lemma BinAttributed(app: AppDir, name: string, version: string, binName: string, exe: string,
                      pm: map<string, Catalog.Package>)
    requires Normalised(app.home)
    requires SimpleName(name) && SimpleName(version) && SimpleName(binName)
    requires name in pm
    ensures var bin := Layout.PackageBin(app, name, version, binName, exe);
      StartsWith(bin, app.Packages()) && Attribute(bin, app.Packages(), pm) == Some(InstalledPackage(pm[name], version))
  {
    var dir := app.Packages();
    Layout.SimpleLayout(app, name, version, binName, exe);
    assert Normalised(dir) by {
      forall i | 0 < i < |dir| ensures dir[i].Normal? || dir[i].ParentDir? {
        if i < |app.home| { assert dir[i] == app.home[i]; }
      }
    }
    LayoutAttributed(dir, name, version, SetExtension(binName, exe), pm);
  }

  /** `<dir>/<name>/<version>/<file>` is attributed to the package `<name>` at `<version>`. */
  lemma LayoutAttributed(dir: Path, name: string, version: string, file: string, pm: map<string, Catalog.Package>)
    requires Normalised(dir) && |dir| > 0 && name in pm
    ensures var p := dir + [Normal(name), Normal(version), Normal(file)];
      StartsWith(p, dir) && Attribute(p, dir, pm) == Some(InstalledPackage(pm[name], version))
  {
    var p := dir + [Normal(name), Normal(version), Normal(file)];
    assert StartsWith(p, dir) by { assert p[..|dir|] == dir; }
    assert Normalised(p) by {
      forall i | 0 < i < |p| ensures p[i].Normal? || p[i].ParentDir? {
        if i < |dir| { assert p[i] == dir[i]; }
      }
    }
    assert p[|dir|] == Normal(name);
    assert p[..|p| - 1] == dir + [Normal(name), Normal(version)];
    AttributeIff(p, dir, pm);
  }
}
