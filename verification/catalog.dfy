/**
 * The package catalog (`kaleido.toml` plus the optional user file
 * `custom.toml`) and the first-match lookups every command uses.
 */
module Catalog {
  import opened Wrappers
  import Seqs

  datatype Github = Github(org: string, repo: string)

  datatype Package = Package(
    name: string,
    url: string,
    description: Option<string>,
    version: Option<string>,
    replace: Option<string>,
    language: Option<string>,
    binName: string,
    binPath: Option<string>,
    remoteFilePrefix: Option<string>,
    github: Option<Github>)

  datatype BindlePackage = BindlePackage(name: string, alias: Option<string>)

  datatype Bindle = Bindle(name: string, packages: seq<BindlePackage>)

  datatype Kaleido = Kaleido(packages: seq<Package>, bindles: seq<Bindle>)

  datatype ConfigError = FsError(message: string) | ConfigRead(message: string) | NoSuchFile

  /** What reading one catalog file yields; TOML decoding itself is not modelled. */
  datatype CatalogFile =
    | Missing                   // absent, or not a regular file
    | Unreadable(message: string)
    | Malformed(message: string)
    | Parsed(catalog: Kaleido)

  function ReadFile(f: CatalogFile): Result<Kaleido, ConfigError>
    requires !f.Missing?
  {
    match f
    case Unreadable(m) => Err(FsError(m))
    case Malformed(m) => Err(ConfigRead(m))
    case Parsed(k) => Ok(k)
  }

  /** `m` lists the entries of `s` and then those of `c`, each in order, nothing dropped or merged. */
  predicate Appended(s: Kaleido, c: Kaleido, m: Kaleido) {
    && |m.packages| == |s.packages| + |c.packages|
    && (forall i :: 0 <= i < |s.packages| ==> m.packages[i] == s.packages[i])
    && (forall i :: 0 <= i < |c.packages| ==> m.packages[|s.packages| + i] == c.packages[i])
    && |m.bindles| == |s.bindles| + |c.bindles|
    && (forall i :: 0 <= i < |s.bindles| ==> m.bindles[i] == s.bindles[i])
    && (forall i :: 0 <= i < |c.bindles| ==> m.bindles[|s.bindles| + i] == c.bindles[i])
  }

  /**
   * Loads the system catalog and appends the user catalog, when there is
   * one, without removing duplicates.
   */
  function LoadConfig(sys: CatalogFile, custom: CatalogFile): (r: Result<Kaleido, ConfigError>)
    ensures sys.Missing? ==> r == Err(NoSuchFile)
    ensures r.Ok? ==> sys.Parsed? && (custom.Missing? || custom.Parsed?)
    ensures sys.Parsed? && custom.Missing? ==> r == Ok(sys.catalog)
    ensures sys.Parsed? && custom.Parsed? ==> r.Ok? && Appended(sys.catalog, custom.catalog, r.value)
    ensures !sys.Missing? && (!sys.Parsed? || custom.Unreadable? || custom.Malformed?) ==> r.Err?
  {
    if sys.Missing? then Err(NoSuchFile)
    else match ReadFile(sys)
      case Err(e) => Err(e)
      case Ok(s) =>
        if custom.Missing? then Ok(s)
        else match ReadFile(custom)
          case Err(e) => Err(e)
          case Ok(c) => Ok(Kaleido(s.packages + c.packages, s.bindles + c.bindles))
  }

  /** The first package named `name`, as `iter().find` returns it. */
  function FindPackage(packages: seq<Package>, name: string): (r: Option<Package>)
    ensures r.None? <==> forall i :: 0 <= i < |packages| ==> packages[i].name != name
    ensures r.Some? ==> exists i :: 0 <= i < |packages| && packages[i] == r.value
                          && (forall j :: 0 <= j < i ==> packages[j].name != name)
    ensures r.Some? ==> r.value.name == name
  {
    var i := Seqs.FirstIndex((p: Package) => p.name == name, packages);
    if i < |packages| then Some(packages[i]) else None
  }

  /** The first bindle named `name`. */
  function FindBindle(bindles: seq<Bindle>, name: string): (r: Option<Bindle>)
    ensures r.None? <==> forall i :: 0 <= i < |bindles| ==> bindles[i].name != name
    ensures r.Some? ==> exists i :: 0 <= i < |bindles| && bindles[i] == r.value
                          && (forall j :: 0 <= j < i ==> bindles[j].name != name)
    ensures r.Some? ==> r.value.name == name
  {
    var i := Seqs.FirstIndex((b: Bindle) => b.name == name, bindles);
    if i < |bindles| then Some(bindles[i]) else None
  }

  /** Package lookup in a concatenation prefers the first part. */
  lemma FindPackageAppend(a: seq<Package>, b: seq<Package>, name: string)
    ensures FindPackage(a + b, name)
         == if FindPackage(a, name).Some? then FindPackage(a, name) else FindPackage(b, name)
  {
    var hit := (p: Package) => p.name == name;
    Seqs.FirstIndexAppend(hit, a, b);
    var k := Seqs.FirstIndex(hit, b);
    if k < |b| {
      assert (a + b)[|a| + k] == b[k];
    }
    var i := Seqs.FirstIndex(hit, a);
    if i < |a| {
      assert (a + b)[i] == a[i];
    }
  }

  /** Bindle lookup in a concatenation prefers the first part. */
  lemma FindBindleAppend(a: seq<Bindle>, b: seq<Bindle>, name: string)
    ensures FindBindle(a + b, name)
         == if FindBindle(a, name).Some? then FindBindle(a, name) else FindBindle(b, name)
  {
    var hit := (x: Bindle) => x.name == name;
    Seqs.FirstIndexAppend(hit, a, b);
    var k := Seqs.FirstIndex(hit, b);
    if k < |b| {
      assert (a + b)[|a| + k] == b[k];
    }
    var i := Seqs.FirstIndex(hit, a);
    if i < |a| {
      assert (a + b)[i] == a[i];
    }
  }

  /**
   * In a merged catalog a system entry shadows every user entry of the
   * same name; a user entry is found only when the system has none.
   */
  lemma SystemShadowsCustom(sys: Kaleido, custom: Kaleido, name: string)
    ensures var merged := LoadConfig(Parsed(sys), Parsed(custom)).value;
      && FindPackage(merged.packages, name)
         == (if FindPackage(sys.packages, name).Some? then FindPackage(sys.packages, name)
             else FindPackage(custom.packages, name))
      && FindBindle(merged.bindles, name)
         == (if FindBindle(sys.bindles, name).Some? then FindBindle(sys.bindles, name)
             else FindBindle(custom.bindles, name))
  {
    var merged := LoadConfig(Parsed(sys), Parsed(custom)).value;
    assert merged.packages == sys.packages + custom.packages;
    assert merged.bindles == sys.bindles + custom.bindles;
    FindPackageAppend(sys.packages, custom.packages, name);
    FindBindleAppend(sys.bindles, custom.bindles, name);
  }
}
