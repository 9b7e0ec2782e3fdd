/**
 * Paths as sequences of components, in the normalised form Rust's
 * `Path::components` yields: equality of paths is equality of component
 * sequences, and `starts_with` is a component-wise prefix test, so
 * `packages/foo` is never a prefix of `packages/foobar/...`.
 * Text is split on `/` only (the Unix separator).
 */
module Paths {
  import opened Wrappers
  import Strings

  datatype Component =
    | Prefix(drive: string)   // a Windows drive or UNC prefix such as `C:`
    | RootDir                 // the leading `/`
    | CurDir                  // a leading `.`
    | ParentDir               // `..`
    | Normal(name: string)    // any other name

  type Path = seq<Component>

  /** `base` is a component-wise prefix of `p` (Rust's `Path::starts_with`). */
  predicate StartsWith(p: Path, base: Path) {
    |base| <= |p| && p[..|base|] == base
  }

  /** `StartsWith` is transitive. */
  lemma StartsWithTrans(p: Path, q: Path, r: Path)
    requires StartsWith(p, q) && StartsWith(q, r)
    ensures StartsWith(p, r)
  {
    assert p[..|r|] == p[..|q|][..|r|];
  }

  /** Two prefixes of one path are ordered by `StartsWith`. */
  lemma PrefixesComparable(p: Path, q: Path, r: Path)
    requires StartsWith(p, q) && StartsWith(p, r)
    ensures StartsWith(q, r) || StartsWith(r, q)
  {
    if |r| <= |q| {
      assert q[..|r|] == p[..|q|][..|r|];
    } else {
      assert r[..|q|] == p[..|r|][..|q|];
    }
  }

  /** The shape `Path::components` produces on Unix: only the first component may be a root or `.`. */
  predicate Normalised(p: Path) {
    forall i :: 0 < i < |p| ==> p[i].Normal? || p[i].ParentDir?
  }

  /** The text of one component, as `Component::as_os_str` shows it on Unix. */
  function Text(c: Component): string {
    match c
    case Prefix(d) => d
    case RootDir => "/"
    case CurDir => "."
    case ParentDir => ".."
    case Normal(n) => n
  }

  /** The last component when it is a normal name (Rust's `Path::file_name`). */
  function FileName(p: Path): Option<string> {
    if |p| > 0 && p[|p| - 1].Normal? then Some(p[|p| - 1].name) else None
  }

  /** The path without its last component, unless that is a root or prefix (Rust's `Path::parent`). */
  function Parent(p: Path): Option<Path> {
    if |p| > 0 && !p[|p| - 1].RootDir? && !p[|p| - 1].Prefix? then Some(p[..|p| - 1]) else None
  }

  /** A path that starts at the root or at a prefix replaces whatever it is joined to. */
  predicate IsAnchored(p: Path) {
    |p| > 0 && (p[0].RootDir? || p[0].Prefix?)
  }

  /** Appends `rel` to `base` (Rust's `Path::join` followed by normalisation). */
  function Join(base: Path, rel: Path): (r: Path)
    ensures !IsAnchored(rel) && |base| > 0 ==> StartsWith(r, base)
  {
    if IsAnchored(rel) then rel
    else if |base| > 0 && |rel| > 0 && rel[0].CurDir? then base + rel[1..]
    else base + rel
  }

  predicate IsSlash(c: char) { c == '/' }

  /** Components of the `/`-separated pieces; `atStart` keeps a leading `.`. */
  function PieceComponents(pieces: seq<string>, atStart: bool): Path
    decreases |pieces|
  {
    if |pieces| == 0 then []
    else
      var piece := pieces[0];
      var c: Path :=
        if piece == "" then []
        else if piece == "." then (if atStart then [CurDir] else [])
        else if piece == ".." then [ParentDir]
        else [Normal(piece)];
      c + PieceComponents(pieces[1..], false)
  }

  /** The components of a Unix path text (Rust's `Path::new(s).components()`). */
  function Parse(s: string): Path {
    var pieces := Strings.SplitBy(s, IsSlash);
    if |s| > 0 && s[0] == '/' then [RootDir] + PieceComponents(pieces[1..], false)
    else PieceComponents(pieces, true)
  }

  /** A single plain file or directory name: it parses to exactly one normal component. */
  predicate SimpleName(s: string) {
    s != "" && s != "." && s != ".." && Strings.Free(s, IsSlash)
  }

  lemma ParseSimpleName(s: string)
    requires SimpleName(s)
    ensures Parse(s) == [Normal(s)]
  {
    Strings.SplitFree(s, IsSlash);
    assert !IsSlash(s[0]);
    assert PieceComponents([s], true) == [Normal(s)] + PieceComponents([], false);
  }

  /** `base` joined with the text `name` (Rust's `base.join(name)`). */
  function Child(base: Path, name: string): Path {
    Join(base, Parse(name))
  }

  /** Joining a simple name appends exactly one normal component. */
  lemma ChildSimple(base: Path, name: string)
    requires SimpleName(name)
    ensures Child(base, name) == base + [Normal(name)]
  {
    ParseSimpleName(name);
  }

  /** The position of the last `.` in `s`, if any. */
  function LastDot(s: string): (r: Option<nat>)
    ensures r.Some? ==> r.value < |s| && s[r.value] == '.'
    ensures r.Some? ==> forall i :: r.value < i < |s| ==> s[i] != '.'
    ensures r.None? ==> forall i :: 0 <= i < |s| ==> s[i] != '.'
  {
    if |s| == 0 then None
    else if s[|s| - 1] == '.' then Some(|s| - 1)
    else LastDot(s[..|s| - 1])
  }

  /**
   * The extension of a file name (Rust's `Path::extension`): the text after
   * the last `.`, unless there is no `.` or the only `.` is the first character.
   */
  function Extension(name: string): Option<string> {
    match LastDot(name)
    case None => None
    case Some(i) => if i == 0 then None else Some(name[i + 1..])
  }

  /** The file name without its extension (Rust's `Path::file_stem`). */
  function Stem(name: string): string {
    match LastDot(name)
    case None => name
    case Some(i) => if i == 0 then name else name[..i]
  }

  /** A name is its stem followed by `.` and its extension, when there is one. */
  lemma StemExtension(name: string)
    ensures Extension(name).None? ==> Stem(name) == name
    ensures Extension(name).Some? ==> name == Stem(name) + "." + Extension(name).value
    ensures name != "" ==> Stem(name) != ""
  {
    match LastDot(name)
    case None =>
    case Some(i) =>
      if i > 0 {
        assert name == name[..i] + "." + name[i + 1..];
      }
  }

  /**
   * Replaces the extension of a normal file name (Rust's `Path::set_extension`):
   * an empty `ext` strips the existing extension and adds none.
   */
  function SetExtension(name: string, ext: string): string {
    Stem(name) + (if ext == "" then "" else "." + ext)
  }

  /** Setting a non-empty, dot-free extension makes it the extension and keeps the stem. */
  lemma SetExtensionRoundTrip(name: string, ext: string)
    requires name != "" && ext != "" && Strings.Free(ext, c => c == '.')
    ensures Extension(SetExtension(name, ext)) == Some(ext)
    ensures Stem(SetExtension(name, ext)) == Stem(name)
  {
    var stem := Stem(name);
    StemExtension(name);
    var r := stem + "." + ext;
    assert SetExtension(name, ext) == r;
    assert r[|stem|] == '.';
    assert forall i :: |stem| < i < |r| ==> r[i] == ext[i - |stem| - 1];
    assert forall i :: 0 <= i < |ext| ==> ext[i] != '.' by {
      forall i | 0 <= i < |ext| ensures ext[i] != '.' {
        assert !(c => c == '.')(ext[i]);
      }
    }
    LastDotIs(r, |stem|);
    assert |stem| != 0;
    assert r[|stem| + 1..] == ext;
    assert r[..|stem|] == stem;
  }

  lemma LastDotIs(s: string, i: nat)
    requires i < |s| && s[i] == '.'
    requires forall j :: i < j < |s| ==> s[j] != '.'
    ensures LastDot(s) == Some(i)
    decreases |s|
  {
    if i < |s| - 1 {
      LastDotIs(s[..|s| - 1], i);
    }
  }

  /** The path with the extension of its file name replaced; a path without a file name is unchanged. */
  function WithExtension(p: Path, ext: string): Path {
    match FileName(p)
    case None => p
    case Some(n) => p[..|p| - 1] + [Normal(SetExtension(n, ext))]
  }
}
