/**
 * Bindles: named groups of catalog packages, each member with an optional
 * alias. A bindle command expands the group into install requests for the
 * members the catalog knows and a list of the names it does not, runs the
 * plain command on the requests, and reports the missing names after it.
 */
module Bindles {
  import opened Wrappers
  import opened FileSystem
  import opened Trace
  import Seqs
  import Catalog
  import Request
  import BinInstaller
  import Execute
  import Uninstall
  import Helper

  /** The catalog has a package with the member's name. */
  function Known(k: Catalog.Kaleido): Catalog.BindlePackage -> bool {
    (m: Catalog.BindlePackage) => Catalog.FindPackage(k.packages, m.name).Some?
  }

  /** The catalog has no package with the member's name. */
  function Unknown(k: Catalog.Kaleido): Catalog.BindlePackage -> bool {
    (m: Catalog.BindlePackage) => Catalog.FindPackage(k.packages, m.name).None?
  }

  /** The request a known member becomes: any version, the member's alias. */
  function AsRequest(m: Catalog.BindlePackage): Request.InstallRequest {
    Request.InstallRequest(m.name, m.alias, None)
  }

  function NameOf(m: Catalog.BindlePackage): string {
    m.name
  }

  /**
   * The loop of `get_packages`: each member in turn becomes a request (the
   * catalog has it) or a missing name (it does not).
   */
  function Expand(k: Catalog.Kaleido, members: seq<Catalog.BindlePackage>): (r: (seq<Request.InstallRequest>, seq<string>))
    ensures |r.0| + |r.1| == |members|
    ensures forall q | q in r.0 :: q.version.None? && Catalog.FindPackage(k.packages, q.name).Some?
    ensures forall n | n in r.1 :: Catalog.FindPackage(k.packages, n).None?
    decreases |members|
  {
    if |members| == 0 then ([], [])
    else
      var m := members[0];
      var rest := Expand(k, members[1..]);
      match Catalog.FindPackage(k.packages, m.name)
      case Some(p) => ([Request.InstallRequest(p.name, m.alias, None)] + rest.0, rest.1)
      case None => (rest.0, [m.name] + rest.1)
  }

  /**
   * The expansion is a partition of the members that keeps their order: the
   * requests are the known members in order, the missing names the unknown
   * ones in order.
   */
  lemma {:induction false} ExpandPartitions(k: Catalog.Kaleido, members: seq<Catalog.BindlePackage>)
    ensures Expand(k, members).0 == Seqs.Map(AsRequest, Seqs.Filter(Known(k), members))
    ensures Expand(k, members).1 == Seqs.Map(NameOf, Seqs.Filter(Unknown(k), members))
    decreases |members|
  {
    if |members| > 0 {
      var m := members[0];
      ExpandPartitions(k, members[1..]);
      var known := Seqs.Filter(Known(k), members[1..]);
      var unknown := Seqs.Filter(Unknown(k), members[1..]);
      if Catalog.FindPackage(k.packages, m.name).Some? {
        assert Seqs.Filter(Known(k), members) == [m] + known;
        assert Seqs.Filter(Unknown(k), members) == unknown;
        assert Seqs.Map(AsRequest, [m] + known) == [AsRequest(m)] + Seqs.Map(AsRequest, known);
      } else {
        assert Seqs.Filter(Known(k), members) == known;
        assert Seqs.Filter(Unknown(k), members) == [m] + unknown;
        assert Seqs.Map(NameOf, [m] + unknown) == [NameOf(m)] + Seqs.Map(NameOf, unknown);
      }
    }
  }

  /**
   * `get_packages`: nothing when the catalog does not load or has no bindle
   * of that name (the first one of that name is taken); otherwise the
   * expansion of its members.
   */
  function GetPackages(sys: Catalog.CatalogFile, custom: Catalog.CatalogFile, name: string)
    : (r: Option<(seq<Request.InstallRequest>, seq<string>)>)
    ensures Catalog.LoadConfig(sys, custom).Err? ==> r.None?
    ensures Catalog.LoadConfig(sys, custom).Ok? ==>
      var k := Catalog.LoadConfig(sys, custom).value;
      && (Catalog.FindBindle(k.bindles, name).None? <==> r.None?)
      && (r.Some? ==> r.value == Expand(k, Catalog.FindBindle(k.bindles, name).value.packages))
  {
    match Catalog.LoadConfig(sys, custom)
    case Err(_) => None
    case Ok(k) =>
      match Catalog.FindBindle(k.bindles, name)
      case None => None
      case Some(b) => Some(Expand(k, b.packages))
  }

  /** The message `get_packages` logs when it gives nothing. */
  function Unavailable(sys: Catalog.CatalogFile, custom: Catalog.CatalogFile, name: string): Effect {
    if Catalog.LoadConfig(sys, custom).Err? then Said(MetadataUnavailable) else Said(UnknownBindle(name))
  }

  /** The closing report: the missing names, when there are any. */
  function Report(missing: seq<string>): (t: seq<Effect>)
    ensures |missing| == 0 <==> t == []
    ensures |missing| > 0 ==> t == [Said(MissingPackages(missing))]
  {
    if |missing| == 0 then [] else [Said(MissingPackages(missing))]
  }

  /** The traces of a batch of installs, one after another. */
  function Flatten(runs: seq<Done>): (t: seq<Effect>)
    ensures |runs| > 0 ==> t == runs[0].trace + Flatten(runs[1..])
  {
    if |runs| == 0 then [] else runs[0].trace + Flatten(runs[1..])
  }

  /** The file system a batch of installs leaves. */
  function Last(fs: Fs, runs: seq<Done>): Fs {
    if |runs| == 0 then fs else runs[|runs| - 1].fs
  }

  /** The members of the bindle a command names, when the catalog loads and has it. */
  function Members(sys: Catalog.CatalogFile, custom: Catalog.CatalogFile, name: string): (r: Option<seq<Catalog.BindlePackage>>)
    ensures r.Some? <==> GetPackages(sys, custom, name).Some?
  {
    match Catalog.LoadConfig(sys, custom)
    case Err(_) => None
    case Ok(k) =>
      match Catalog.FindBindle(k.bindles, name)
      case None => None
      case Some(b) => Some(b.packages)
  }

  /** The answers of the network to a batch of `n` requests. */
  function Answers(n: nat, remotes: nat -> BinInstaller.Remote): (r: seq<BinInstaller.Remote>)
    ensures |r| == n && forall i | 0 <= i < n :: r[i] == remotes(i)
  {
    seq(n, (i: int) requires 0 <= i < n => remotes(i))
  }

  /**
   * `bindle install` (and `bindle update`, which is the same command): the
   * requests are installed as the plain `install` command does, then the
   * missing names are reported. `remotes(i)` is what the network answers to
   * the i-th request.
   */
  function Install(app: AppDir, platform: Request.Platform, ctx: Request.InstallerContext,
                   sys: Catalog.CatalogFile, custom: Catalog.CatalogFile, name: string,
                   fs: Fs, remotes: nat -> BinInstaller.Remote): (r: Done)
    ensures GetPackages(sys, custom, name).None? ==> r == Done(fs, [Unavailable(sys, custom, name)])
    ensures Members(sys, custom, name).Some? ==>
      var k := Catalog.LoadConfig(sys, custom).value;
      var members := Members(sys, custom, name).value;
      var requests := Seqs.Map(AsRequest, Seqs.Filter(Known(k), members));
      var runs := Execute.InstallAll(app, platform, ctx, sys, custom, requests, fs, Answers(|requests|, remotes));
      r == Done(Last(fs, runs), Flatten(runs) + Report(Seqs.Map(NameOf, Seqs.Filter(Unknown(k), members))))
  {
    match GetPackages(sys, custom, name)
    case None => Done(fs, [Unavailable(sys, custom, name)])
    case Some((requests, missing)) =>
      ExpandPartitions(Catalog.LoadConfig(sys, custom).value, Members(sys, custom, name).value);
      var runs := Execute.InstallAll(app, platform, ctx, sys, custom, requests, fs, Answers(|requests|, remotes));
      Done(Last(fs, runs), Flatten(runs) + Report(missing))
  }

  /** `bindle update` is `bindle install`. */
  function Update(app: AppDir, platform: Request.Platform, ctx: Request.InstallerContext,
                  sys: Catalog.CatalogFile, custom: Catalog.CatalogFile, name: string,
                  fs: Fs, remotes: nat -> BinInstaller.Remote): (r: Done)
    ensures GetPackages(sys, custom, name).None? ==> r == Done(fs, [Unavailable(sys, custom, name)])
    ensures Members(sys, custom, name).Some? ==>
      var k := Catalog.LoadConfig(sys, custom).value;
      var members := Members(sys, custom, name).value;
      var requests := Seqs.Map(AsRequest, Seqs.Filter(Known(k), members));
      var runs := Execute.InstallAll(app, platform, ctx, sys, custom, requests, fs, Answers(|requests|, remotes));
      r == Done(Last(fs, runs), Flatten(runs) + Report(Seqs.Map(NameOf, Seqs.Filter(Unknown(k), members))))
  {
    Install(app, platform, ctx, sys, custom, name, fs, remotes)
  }

  /** The names of the requests made from members are the members' names. */
  lemma RequestNames(members: seq<Catalog.BindlePackage>)
    ensures Seqs.Map((q: Request.InstallRequest) => q.name, Seqs.Map(AsRequest, members)) == Seqs.Map(NameOf, members)
  {
  }

  /**
   * `bindle uninstall`: the names of the known members, and only those, are
   * uninstalled (with the corrected sweep); the unknown members' names are
   * reported after it.
   */
  function UninstallBindle(app: AppDir, sys: Catalog.CatalogFile, custom: Catalog.CatalogFile, name: string, fs: Fs,
                           binListing: Result<seq<Helper.DirEntry>, string>,
                           aliasListing: Result<seq<Helper.DirEntry>, string>): (r: Done)
    ensures GetPackages(sys, custom, name).None? ==> r == Done(fs, [Unavailable(sys, custom, name)])
    ensures Members(sys, custom, name).Some? ==>
      var k := Catalog.LoadConfig(sys, custom).value;
      var members := Members(sys, custom, name).value;
      var u := Uninstall.Uninstall(app, Seqs.Map(NameOf, Seqs.Filter(Known(k), members)), fs, binListing, aliasListing);
      r == Done(u.fs, u.trace + Report(Seqs.Map(NameOf, Seqs.Filter(Unknown(k), members))))
  {
    match GetPackages(sys, custom, name)
    case None => Done(fs, [Unavailable(sys, custom, name)])
    case Some((requests, missing)) =>
      var k := Catalog.LoadConfig(sys, custom).value;
      var members := Members(sys, custom, name).value;
      ExpandPartitions(k, members);
      RequestNames(Seqs.Filter(Known(k), members));
      var names := Seqs.Map((q: Request.InstallRequest) => q.name, requests);
      var u := Uninstall.Uninstall(app, names, fs, binListing, aliasListing);
      Done(u.fs, u.trace + Report(missing))
  }

  /** An unknown bindle changes nothing, whichever command names it. */
  lemma UnknownBindleChangesNothing(app: AppDir, platform: Request.Platform, ctx: Request.InstallerContext,
                                    sys: Catalog.CatalogFile, custom: Catalog.CatalogFile, name: string, fs: Fs,
                                    remotes: nat -> BinInstaller.Remote,
                                    binListing: Result<seq<Helper.DirEntry>, string>,
                                    aliasListing: Result<seq<Helper.DirEntry>, string>)
    requires Catalog.LoadConfig(sys, custom).Ok?
    requires forall b | b in Catalog.LoadConfig(sys, custom).value.bindles :: b.name != name
    ensures Install(app, platform, ctx, sys, custom, name, fs, remotes) == Done(fs, [Said(UnknownBindle(name))])
    ensures UninstallBindle(app, sys, custom, name, fs, binListing, aliasListing) == Done(fs, [Said(UnknownBindle(name))])
  {
    var k := Catalog.LoadConfig(sys, custom).value;
    assert forall i | 0 <= i < |k.bindles| :: k.bindles[i] in k.bindles;
  }
}
