/**
 * Where the installers put things below the application home: one
 * directory per package and version holding the binary, and the `bin` and
 * `alias` directories holding links to those binaries.
 */
module Layout {
  import opened Paths
  import opened FileSystem

  /** `packages/<name>` */
  function PackageRoot(app: AppDir, name: string): Path {
    Child(app.Packages(), name)
  }

  /** `packages/<name>/<version>` */
  function PackageDir(app: AppDir, name: string, version: string): Path {
    Child(PackageRoot(app, name), version)
  }

  /** `packages/<name>/<version>/<bin name>` with its extension set to the platform's. */
  function PackageBin(app: AppDir, name: string, version: string, binName: string, exe: string): Path {
    WithExtension(Child(PackageDir(app, name, version), binName), exe)
  }

  /** `bin/<bin name>` with its extension set to the platform's. */
  function BinLink(app: AppDir, binName: string, exe: string): Path {
    WithExtension(Child(app.Bin(), binName), exe)
  }

  /** `alias/<alias>` with its extension set to the platform's. */
  function AliasLink(app: AppDir, alias: string, exe: string): Path {
    WithExtension(Child(app.Alias(), alias), exe)
  }

  /** Setting the extension of a path ending in a normal name only renames that name. */
  lemma WithExtensionLast(p: Path, n: string, exe: string)
    ensures WithExtension(p + [Normal(n)], exe) == p + [Normal(SetExtension(n, exe))]
  {
    assert (p + [Normal(n)])[..|p|] == p;
  }

  /** With plain names every layout path is one normal component per name. */
  lemma SimpleLayout(app: AppDir, name: string, version: string, binName: string, exe: string)
    requires SimpleName(name) && SimpleName(version) && SimpleName(binName)
    ensures PackageRoot(app, name) == app.Packages() + [Normal(name)]
    ensures PackageDir(app, name, version) == app.Packages() + [Normal(name), Normal(version)]
    ensures PackageBin(app, name, version, binName, exe)
         == app.Packages() + [Normal(name), Normal(version), Normal(SetExtension(binName, exe))]
  {
    var root := PackageRoot(app, name);
    var dir := PackageDir(app, name, version);
    ChildSimple(app.Packages(), name);
    ChildSimple(root, version);
    assert dir == app.Packages() + [Normal(name)] + [Normal(version)];
    ChildSimple(dir, binName);
    WithExtensionLast(dir, binName, exe);
  }

  lemma SimpleBinLink(app: AppDir, binName: string, exe: string)
    requires SimpleName(binName)
    ensures BinLink(app, binName, exe) == app.Bin() + [Normal(SetExtension(binName, exe))]
  {
    ChildSimple(app.Bin(), binName);
    WithExtensionLast(app.Bin(), binName, exe);
  }

  lemma SimpleAlias(app: AppDir, alias: string, exe: string)
    requires SimpleName(alias)
    ensures AliasLink(app, alias, exe) == app.Alias() + [Normal(SetExtension(alias, exe))]
  {
    ChildSimple(app.Alias(), alias);
    WithExtensionLast(app.Alias(), alias, exe);
  }

  /** A path below `home/<area>` names `area` right after the home. */
  lemma UnderArea(home: Path, area: string, p: Path)
    requires StartsWith(p, home + [Normal(area)])
    ensures |p| > |home| && p[|home|] == Normal(area)
  {
    assert p[..|home| + 1][|home|] == Normal(area);
  }

  /**
   * The `bin` and alias links are distinct entries outside the workspace,
   * and nothing in the packages tree is one of them.
   */
  lemma LinkEntriesApart(app: AppDir, binName: string, alias: string, exe: string)
    requires SimpleName(binName) && SimpleName(alias)
    ensures BinLink(app, binName, exe) != AliasLink(app, alias, exe)
    ensures !StartsWith(BinLink(app, binName, exe), app.Tmp())
    ensures !StartsWith(AliasLink(app, alias, exe), app.Tmp())
    ensures forall q :: StartsWith(q, app.Packages()) ==>
      q != BinLink(app, binName, exe) && q != AliasLink(app, alias, exe) && !StartsWith(q, app.Tmp())
  {
    var b := BinLink(app, binName, exe);
    var a := AliasLink(app, alias, exe);
    SimpleBinLink(app, binName, exe);
    SimpleAlias(app, alias, exe);
    assert StartsWith(b, app.Bin()) by { assert b[..|app.Bin()|] == app.Bin(); }
    assert StartsWith(a, app.Alias()) by { assert a[..|app.Alias()|] == app.Alias(); }
    UnderArea(app.home, "bin", b);
    UnderArea(app.home, "alias", a);
    forall q | StartsWith(q, app.Packages())
      ensures q != b && q != a && !StartsWith(q, app.Tmp())
    {
      UnderArea(app.home, "packages", q);
      if StartsWith(q, app.Tmp()) { UnderArea(app.home, "tmp", q); }
    }
    if StartsWith(b, app.Tmp()) { UnderArea(app.home, "tmp", b); }
    if StartsWith(a, app.Tmp()) { UnderArea(app.home, "tmp", a); }
  }

  /** Nothing lies below two different sub-directories of the home. */
  lemma AreasDisjoint(app: AppDir, a: string, b: string, p: Path)
    requires a != b
    requires StartsWith(p, app.home + [Normal(a)])
    ensures !StartsWith(p, app.home + [Normal(b)])
  {
    assert p[|app.home|] == Normal(a);
  }
}
