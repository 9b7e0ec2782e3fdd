/**
 * Choosing the GitHub release and the assets to install (the installer's
 * `find_assets` and `find_github_release`). The release list is injected:
 * `pages[k]` is what the k-th request for a page of releases returned, and
 * a request past the end of `pages` returns an empty page.
 */
module Release {
  import opened Wrappers
  import opened Request
  import opened Catalog
  import FileSystem
  import Http
  import Strings
  import Seqs

  datatype GhAsset = GhAsset(name: string, browserDownloadUrl: string)

  datatype GhRelease = GhRelease(
    tagName: string,
    draft: bool,
    prerelease: bool,
    zipballUrl: Option<string>,
    assets: seq<GhAsset>)

  /** One reply of the release listing endpoint. */
  datatype ReleasePage = Listed(items: seq<GhRelease>) | Unavailable(reason: string)

  datatype AppAsset = AppAsset(name: string, downloadUrl: string)

  /** The release an installer works from: the tag as version, the source archive, the matching assets. */
  datatype AppRelease = AppRelease(version: string, sourceUrl: Option<string>, assets: seq<AppAsset>)

  /**
   * Failures of an installation. `Download` and `ToolFs` carry the HTTP and
   * tool file-system errors that the installers propagate with `?`.
   */
  datatype InstallError =
    | FileSystem(cause: FileSystem.IoError)
    | General(message: string)
    | GeneralStr(text: string)
    | ToolFs(fsError: FileSystem.FsError)
    | Download(httpError: Http.HttpError)

  /** The tags a requested version may appear under. */
  function TagCandidates(version: string): (r: seq<string>)
    ensures version in r
    ensures "v" + version in r <==> version != Latest && !Strings.StartsWith(version, "v")
    ensures forall i :: 0 <= i < |r| ==> r[i] == version || r[i] == "v" + version
  {
    assert version != "v" + version by {
      assert |"v" + version| == |version| + 1;
    }
    if version != Latest && !Strings.StartsWith(version, "v") then [version, "v" + version]
    else [version]
  }

  /**
   * Whether a listed release answers the request: for `LATEST` the first
   * release that is neither a draft nor a pre-release, otherwise a release
   * tagged with the version or with `v` and the version.
   */
  function Accepts(version: string, rel: GhRelease): (ok: bool)
    ensures version == Latest ==> (ok <==> !rel.draft && !rel.prerelease)
    ensures version != Latest ==>
      (ok <==> rel.tagName == version || (rel.tagName == "v" + version && !Strings.StartsWith(version, "v")))
  {
    if version == Latest then !(rel.draft || rel.prerelease)
    else rel.tagName in TagCandidates(version)
  }

  /** The first accepted release of one page. */
  function FindInPage(items: seq<GhRelease>, version: string): (r: Option<GhRelease>)
    ensures r.None? <==> forall i :: 0 <= i < |items| ==> !Accepts(version, items[i])
    ensures r.Some? ==> exists i :: 0 <= i < |items| && items[i] == r.value
                         && Accepts(version, r.value)
                         && forall j :: 0 <= j < i ==> !Accepts(version, items[j])
  {
    var i := Seqs.FirstIndex((rel: GhRelease) => Accepts(version, rel), items);
    if i == |items| then None else Some(items[i])
  }

  /** A page that sends the scan on to the next page: non-empty, without an accepted release. */
  predicate Passed(page: ReleasePage, version: string) {
    page.Listed? && |page.items| > 0 && FindInPage(page.items, version).None?
  }

  /** The first page at which the scan stops, `|pages|` when it runs past the supplied pages. */
  function StopIndex(pages: seq<ReleasePage>, version: string): nat {
    Seqs.FirstIndex((p: ReleasePage) => !Passed(p, version), pages)
  }

  /** The result of a scan that stopped at page `k`. */
  function StoppedAt(pages: seq<ReleasePage>, version: string, k: nat): Result<Option<GhRelease>, InstallError>
    requires k <= |pages|
  {
    if k == |pages| then Ok(None)
    else match pages[k]
      case Unavailable(m) => Err(General("failed to load releases: " + m))
      case Listed(items) => if |items| == 0 then Ok(None) else Ok(FindInPage(items, version))
  }

  /**
   * The page loop from page `page` on: a failed request ends it with an
   * error, an empty page ends it with nothing found, a page with an
   * accepted release ends it with that release, and any other page moves
   * on to the next.
   */
  function ScanPages(pages: seq<ReleasePage>, version: string, page: nat): (r: Result<Option<GhRelease>, InstallError>)
    requires page <= |pages|
    ensures r == StoppedAt(pages, version, page + StopIndex(pages[page..], version))
    decreases |pages| - page
  {
    var reply := if page < |pages| then pages[page] else Listed([]);
    match reply
    case Unavailable(m) =>
      assert Seqs.FirstIndex((p: ReleasePage) => !Passed(p, version), pages[page..]) == 0;
      Err(General("failed to load releases: " + m))
    case Listed(items) =>
      if |items| == 0 then
        assert page < |pages| ==> StopIndex(pages[page..], version) == 0;
        Ok(None)
      else
        match FindInPage(items, version)
        case Some(r) =>
          assert StopIndex(pages[page..], version) == 0;
          Ok(Some(r))
        case None =>
          assert pages[page..][1..] == pages[page + 1..];
          assert Passed(pages[page..][0], version);
          ScanPages(pages, version, page + 1)
  }

  /** The release lookup (`find_github_release`), starting at the first page. */
  function FindGithubRelease(pages: seq<ReleasePage>, version: string): (r: Result<Option<GhRelease>, InstallError>)
    ensures r == StoppedAt(pages, version, StopIndex(pages, version))
    ensures r.Ok? && r.value.Some? ==> Accepts(version, r.value.value)
  {
    assert pages[0..] == pages;
    ScanPages(pages, version, 0)
  }

  /** Every page before the stopping page was a non-empty page without an accepted release. */
  lemma ScanSkipsPassedPages(pages: seq<ReleasePage>, version: string, j: nat)
    requires j < StopIndex(pages, version)
    ensures pages[j].Listed? && |pages[j].items| > 0
    ensures forall i :: 0 <= i < |pages[j].items| ==> !Accepts(version, pages[j].items[i])
  {
    assert !(!Passed(pages[j], version));
  }

  /** Once the scan stops within the supplied pages, later pages are never consulted. */
  lemma ScanShortCircuits(pages: seq<ReleasePage>, more: seq<ReleasePage>, version: string)
    requires StopIndex(pages, version) < |pages|
    ensures FindGithubRelease(pages + more, version) == FindGithubRelease(pages, version)
  {
    var stop := (p: ReleasePage) => !Passed(p, version);
    Seqs.FirstIndexAppend(stop, pages, more);
    var k := StopIndex(pages, version);
    assert (pages + more)[k] == pages[k];
  }

  /** The scan over `LATEST` skips drafts and pre-releases and returns the first regular release. */
  lemma LatestSkipsDraftAndPrerelease(a: GhRelease, b: GhRelease, c: GhRelease, d: GhRelease)
    requires a.draft && !b.draft && b.prerelease
    requires !c.draft && !c.prerelease
    ensures FindGithubRelease([Listed([a, b, c, d])], Latest) == Ok(Some(c))
  {
    var items := [a, b, c, d];
    var accepted := (rel: GhRelease) => Accepts(Latest, rel);
    assert !accepted(items[0]) && !accepted(items[1]) && accepted(items[2]);
    assert Seqs.FirstIndex(accepted, items) == 2;
    assert !Passed(Listed(items), Latest);
    assert StopIndex([Listed(items)], Latest) == 0;
  }

  /** `1.2.0` is published as `1.2.0` or `v1.2.0`; `1.2.0-rc1` is a different release. */
  lemma VersionTagTolerance(rel: GhRelease)
    ensures rel.tagName == "1.2.0" ==> Accepts("1.2.0", rel)
    ensures rel.tagName == "v1.2.0" ==> Accepts("1.2.0", rel)
    ensures rel.tagName == "1.2.0-rc1" ==> !Accepts("1.2.0", rel)
    ensures rel.tagName == "vv1.2.0" ==> !Accepts("v1.2.0", rel)
  {
    assert "1.2.0"[0] == '1';
    assert !Strings.StartsWith("1.2.0", "v");
    assert "v" + "1.2.0" == "v1.2.0";
    assert "1.2.0-rc1" != "v1.2.0" by { assert "1.2.0-rc1"[0] != "v1.2.0"[0]; }
    assert Strings.StartsWith("v1.2.0", "v");
  }

  /** GitHub's name for an operating system (`to_github_os`). */
  function ToGithubOs(os: string): (r: string)
    ensures os == "macos" ==> r == "darwin"
    ensures os != "macos" ==> r == os
  {
    if os == "macos" then "darwin" else os
  }

  /** GitHub's name for an architecture (`to_github_arch`): the same name. */
  function ToGithubArch(arch: string): (r: string)
    ensures r == arch
  {
    arch
  }

  predicate SegmentSep(c: char) {
    c == '-' || c == '.'
  }

  /** The tokens of an asset name: the pieces between `-` and `.` (`split(&['-', '.'])`). */
  function Segments(name: string): seq<string> {
    Strings.SplitBy(name, SegmentSep)
  }

  /**
   * The asset filter: the name carries the architecture, the GitHub OS
   * name, the ABI and, when the package has one, the remote file prefix,
   * each as a whole token.
   */
  predicate AssetMatches(name: string, platform: Platform, abi: string, prefix: Option<string>) {
    var segments := Segments(name);
    && ToGithubArch(platform.arch) in segments
    && ToGithubOs(platform.os) in segments
    && abi in segments
    && (prefix.None? || prefix.value in segments)
  }

  /** A token is present exactly when it is separator-free and occurs bounded by separators or ends. */
  ghost predicate Token(name: string, t: string) {
    Strings.Free(t, SegmentSep) && exists i :: Strings.DelimitedAt(name, t, i, SegmentSep)
  }

  /**
   * An asset matches exactly when each required token occurs in its name
   * as a whole token; a required token that itself contains `-` or `.`
   * (an ABI such as `linux-gnu`) never matches.
   */
  lemma AssetMatchesIff(name: string, platform: Platform, abi: string, prefix: Option<string>)
    ensures AssetMatches(name, platform, abi, prefix) <==>
      && Token(name, ToGithubArch(platform.arch))
      && Token(name, ToGithubOs(platform.os))
      && Token(name, abi)
      && (prefix.None? || Token(name, prefix.value))
    ensures !Strings.Free(abi, SegmentSep) ==> !AssetMatches(name, platform, abi, prefix)
  {
    Strings.PieceIff(name, ToGithubArch(platform.arch), SegmentSep);
    Strings.PieceIff(name, ToGithubOs(platform.os), SegmentSep);
    Strings.PieceIff(name, abi, SegmentSep);
    if prefix.Some? {
      Strings.PieceIff(name, prefix.value, SegmentSep);
    }
  }

  function ToAppAsset(a: GhAsset): AppAsset {
    AppAsset(a.name, a.browserDownloadUrl)
  }

  /** The matching assets, in release order, as installer assets. */
  function SelectAssets(assets: seq<GhAsset>, platform: Platform, abi: string, prefix: Option<string>): (r: seq<AppAsset>)
    ensures |r| <= |assets|
    ensures forall i :: 0 <= i < |r| ==>
      exists j :: 0 <= j < |assets| && r[i] == ToAppAsset(assets[j]) && AssetMatches(assets[j].name, platform, abi, prefix)
    ensures forall j :: 0 <= j < |assets| && AssetMatches(assets[j].name, platform, abi, prefix) ==>
      ToAppAsset(assets[j]) in r
  {
    if |assets| == 0 then []
    else
      var rest := SelectAssets(assets[1..], platform, abi, prefix);
      assert forall j :: 1 <= j < |assets| ==> assets[j] == assets[1..][j - 1];
      if AssetMatches(assets[0].name, platform, abi, prefix) then [ToAppAsset(assets[0])] + rest else rest
  }

  /** Selection keeps release order: it distributes over concatenation. */
  lemma {:induction false} SelectAssetsAppend(a: seq<GhAsset>, b: seq<GhAsset>, platform: Platform, abi: string, prefix: Option<string>)
    ensures SelectAssets(a + b, platform, abi, prefix) == SelectAssets(a, platform, abi, prefix) + SelectAssets(b, platform, abi, prefix)
    decreases |a|
  {
    if |a| == 0 {
      assert a + b == b;
    } else {
      assert (a + b)[0] == a[0];
      assert (a + b)[1..] == a[1..] + b;
      SelectAssetsAppend(a[1..], b, platform, abi, prefix);
    }
  }

  /**
   * Finds the release for `version` and keeps its matching assets
   * (`find_assets`). The release's tag becomes the version that names the
   * installation directory.
   */
  function FindAssets(package: Package, version: string, prefix: Option<string>, abi: string,
                      platform: Platform, pages: seq<ReleasePage>): (r: Result<AppRelease, InstallError>)
    ensures package.github.None? ==> r == Err(GeneralStr("currently only support to install from github.com"))
    ensures package.github.Some? && FindGithubRelease(pages, version).Err? ==> r == Err(FindGithubRelease(pages, version).error)
    ensures package.github.Some? && FindGithubRelease(pages, version) == Ok(None) ==>
      r == Err(GeneralStr("cannot find appropriate release"))
    ensures r.Ok? ==> FindGithubRelease(pages, version).Ok? && FindGithubRelease(pages, version).value.Some?
    ensures r.Ok? ==> var rel := FindGithubRelease(pages, version).value.value;
      && r.value.version == rel.tagName
      && r.value.sourceUrl == rel.zipballUrl
      && r.value.assets == SelectAssets(rel.assets, platform, abi, prefix)
    ensures r.Ok? && version != Latest ==> r.value.version == version || r.value.version == "v" + version
  {
    match package.github
    case None => Err(GeneralStr("currently only support to install from github.com"))
    case Some(_) =>
      match FindGithubRelease(pages, version)
      case Err(e) => Err(e)
      case Ok(None) => Err(GeneralStr("cannot find appropriate release"))
      case Ok(Some(rel)) =>
        Ok(AppRelease(rel.tagName, rel.zipballUrl, SelectAssets(rel.assets, platform, abi, prefix)))
  }

  lemma MuslSegments(name: string)
    requires name == "tool" + ("-" + ("x86_64" + ("-" + ("unknown" + ("-" + ("linux" + ("-" + ("musl" + ("." + ("tar" + ("." + "gz")))))))))))
    ensures Segments(name) == ["tool", "x86_64", "unknown", "linux", "musl", "tar", "gz"]
  {
    var pieces := ["tool", "x86_64", "unknown", "linux", "musl", "tar", "gz"];
    assert Strings.Interleave(pieces, "----..") == name;
    Strings.InterleaveSplit(pieces, "----..", SegmentSep);
  }

  /** A musl Linux asset is picked for the `musl` ABI and passed over for `gnu`. */
  lemma MuslAssetExample(name: string)
    requires name == "tool" + ("-" + ("x86_64" + ("-" + ("unknown" + ("-" + ("linux" + ("-" + ("musl" + ("." + ("tar" + ("." + "gz")))))))))))
    ensures AssetMatches(name, Platform("linux", "x86_64", ""), "musl", None)
    ensures !AssetMatches(name, Platform("linux", "x86_64", ""), "gnu", None)
    ensures AssetMatches(name, Platform("linux", "x86_64", ""), "musl", Some("tool"))
  {
    MuslSegments(name);
    var segments := Segments(name);
    assert segments[4] == "musl" && segments[1] == "x86_64" && segments[3] == "linux" && segments[0] == "tool";
    assert "gnu" !in segments;
  }

  lemma DarwinSegments(name: string)
    requires name == "tool" + ("-" + ("aarch64" + ("-" + ("apple" + ("-" + ("darwin" + ("." + "zip")))))))
    ensures Segments(name) == ["tool", "aarch64", "apple", "darwin", "zip"]
  {
    var pieces := ["tool", "aarch64", "apple", "darwin", "zip"];
    assert Strings.Interleave(pieces, "---.") == name;
    Strings.InterleaveSplit(pieces, "---.", SegmentSep);
  }

  /**
   * A `darwin` asset is chosen on macOS only when the ABI asked for is
   * `darwin`: with the default ABI there (`gnu`) it is passed over, and on
   * Linux it is passed over whatever the ABI.
   */
  lemma DarwinAssetExample(name: string)
    requires name == "tool" + ("-" + ("aarch64" + ("-" + ("apple" + ("-" + ("darwin" + ("." + "zip")))))))
    ensures AssetMatches(name, Platform("macos", "aarch64", ""), "darwin", None)
    ensures !AssetMatches(name, Platform("macos", "aarch64", ""), "gnu", None)
    ensures !AssetMatches(name, Platform("linux", "aarch64", ""), "darwin", None)
  {
    DarwinSegments(name);
    var segments := Segments(name);
    assert segments[1] == "aarch64" && segments[3] == "darwin";
    assert "linux" !in segments;
    assert "gnu" !in segments;
  }
}
