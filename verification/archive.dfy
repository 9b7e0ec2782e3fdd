/**
 * Archive handling of the tool's file-system helpers: how a downloaded
 * file is classified, which extractor its extension selects, and which
 * "top folder" each extractor reports for the tree it unpacked. Archive
 * bytes are not decoded here: a `Payload` lists the entries the extractor
 * library would walk, in archive order.
 */
module Archive {
  import opened Wrappers
  import opened Paths
  import opened FileSystem
  import Strings
  import Seqs

  datatype FileType = Compression | Plain | Unknown

  /** An extension as the operating system reports it: valid UTF-8 text or not. */
  datatype OsText = Utf8(text: string) | NotUtf8

  /** The extension of the last component of `p`. */
  function ExtensionOf(p: Path): Option<OsText> {
    match FileName(p)
    case None => None
    case Some(n) =>
      match Extension(n)
      case None => None
      case Some(e) => Some(Utf8(e))
  }

  /** The classification of an extension (`get_file_type`). */
  function FileTypeOfExtension(ext: Option<OsText>): (r: FileType)
    ensures r == Compression <==> ext in {Some(Utf8("zip")), Some(Utf8("7z")), Some(Utf8("gz"))}
    ensures r == Plain <==> ext in {None, Some(Utf8(""))}
  {
    match ext
    case None => Plain
    case Some(NotUtf8) => Unknown
    case Some(Utf8(e)) =>
      if e == "" then Plain
      else if e in {"zip", "7z", "gz"} then Compression
      else Unknown
  }

  /** The classification of a downloaded file by the extension of its name (`get_file_type`). */
  function GetFileType(p: Path): (r: FileType)
    ensures r == Compression <==> ExtensionOf(p) in {Some(Utf8("zip")), Some(Utf8("7z")), Some(Utf8("gz"))}
    ensures r == Plain <==> ExtensionOf(p) in {None, Some(Utf8(""))}
    ensures r == Unknown <==> ExtensionOf(p).Some? && ExtensionOf(p) !in {Some(Utf8("zip")), Some(Utf8("7z")), Some(Utf8("gz")), Some(Utf8(""))}
  {
    FileTypeOfExtension(ExtensionOf(p))
  }

  datatype Extractor = Unzip | SevenZip | Deflate

  /**
   * The extractor `decompress` dispatches to: `zip` and `7z` by name, every
   * other extension (including one that is not UTF-8) to the gzip'd tar
   * extractor, and no extension at all is refused.
   */
  function ExtractorFor(ext: Option<OsText>): (r: Result<Extractor, FsError>)
    ensures r.Err? <==> ext.None?
    ensures r == Ok(Unzip) <==> ext == Some(Utf8("zip"))
    ensures r == Ok(SevenZip) <==> ext == Some(Utf8("7z"))
  {
    match ext
    case None => Err(UnsupportedFile(""))
    case Some(Utf8(e)) =>
      if e == "zip" then Ok(Unzip) else if e == "7z" then Ok(SevenZip) else Ok(Deflate)
    case Some(NotUtf8) => Ok(Deflate)
  }

  /** Every extension classified as compressed has an extractor; `gz` goes to the tar extractor. */
  lemma CompressionHasExtractor(p: Path)
    requires GetFileType(p) == Compression
    ensures ExtractorFor(ExtensionOf(p)).Ok?
    ensures ExtensionOf(p) == Some(Utf8("gz")) ==> ExtractorFor(ExtensionOf(p)) == Ok(Deflate)
  {
  }

  /** A tar entry: its stored path and whether it is a directory. */
  datatype TarEntry = TarEntry(path: Path, isDir: bool)

  /** A 7z entry as the library hands it to the extract callback: destination already joined. */
  datatype SevenZEntry = SevenZEntry(isDirectory: bool, dest: Path)

  /**
   * A zip entry: its raw name, whether `enclosed_name` accepts it, and
   * whether reading it and writing it out succeed.
   */
  datatype ZipEntry = ZipEntry(name: string, enclosed: bool, intact: bool)

  /** What the extractor library would read from the downloaded file. */
  datatype Payload =
    | TarGz(tarEntries: seq<TarEntry>)
    | SevenZArchive(sevenZEntries: seq<SevenZEntry>)
    | ZipArchive(zipEntries: seq<ZipEntry>)
    | Garbage

  predicate IsMarker(c: Component) {
    c.RootDir? || c.CurDir? || c.ParentDir?
  }

  /**
   * The tar extractor's top folder: the first component of the first
   * entry's path, or the second one when the first is a root, current or
   * parent marker. Later entries are never consulted.
   */
  function TarTopFolder(entries: seq<TarEntry>): (r: Option<string>)
    ensures r.None? <==>
      |entries| == 0 || |entries[0].path| == 0 || (|entries[0].path| == 1 && IsMarker(entries[0].path[0]))
    ensures |entries| > 0 && |entries[0].path| > 0 && !IsMarker(entries[0].path[0]) ==>
      r == Some(Text(entries[0].path[0]))
    ensures |entries| > 0 && |entries[0].path| > 1 && IsMarker(entries[0].path[0]) ==>
      r == Some(Text(entries[0].path[1]))
  {
    if |entries| == 0 then None
    else
      var p := entries[0].path;
      if |p| == 0 then None
      else if IsMarker(p[0]) then (if |p| > 1 then Some(Text(p[1])) else None)
      else Some(Text(p[0]))
  }

  /**
   * Where the tar extractor writes an entry: its normal components below
   * `to`; roots, prefixes and `.` are dropped and an entry with `..` is
   * skipped.
   */
  function TarDestination(to: Path, p: Path): Option<Path> {
    if exists i :: 0 <= i < |p| && p[i].ParentDir? then None
    else Some(to + Seqs.Filter(IsNormal, p))
  }

  /** The components `unpack_in` keeps: plain names. */
  predicate IsNormal(c: Component) {
    c.Normal?
  }

  /** Filtering from the top folder at index `k` keeps it first. */
  lemma FilterFromTop(p: Path, k: nat)
    requires k <= 1 && k < |p| && p[k].Normal?
    requires k == 1 ==> IsMarker(p[0])
    ensures Seqs.Filter(IsNormal, p) == [p[k]] + Seqs.Filter(IsNormal, p[k + 1..])
  {
    if k == 1 {
      var q := p[1..];
      assert Seqs.Filter(IsNormal, p) == Seqs.Filter(IsNormal, q);
      assert q[1..] == p[2..];
      assert Seqs.Filter(IsNormal, q) == [q[0]] + Seqs.Filter(IsNormal, q[1..]);
    } else {
      assert Seqs.Filter(IsNormal, p) == [p[0]] + Seqs.Filter(IsNormal, p[1..]);
    }
  }

  /**
   * The reported tar top folder is the first directory level below `to`
   * that the first entry is unpacked into.
   */
  lemma TarTopFolderIsUnpackRoot(entries: seq<TarEntry>, to: Path)
    requires |entries| > 0
    requires TarDestination(to, entries[0].path).Some?
    requires Normalised(entries[0].path) && (|entries[0].path| > 0 ==> !entries[0].path[0].Prefix?)
    requires TarTopFolder(entries).Some?
    ensures StartsWith(TarDestination(to, entries[0].path).value, to + [Normal(TarTopFolder(entries).value)])
  {
    var p := entries[0].path;
    var k := if IsMarker(p[0]) then 1 else 0;
    assert p[k].Normal?;
    FilterFromTop(p, k);
    var rest := Seqs.Filter(IsNormal, p[k + 1..]);
    assert p[k] == Normal(TarTopFolder(entries).value);
    assert (to + [p[k]] + rest)[..|to| + 1] == to + [p[k]];
  }

  /**
   * The 7z top folder so far summarises `entries[..n]`: nothing when no
   * directory was seen, otherwise the outermost directory among those seen
   * that contains the first directory seen.
   */
  predicate SevenZSummary(entries: seq<SevenZEntry>, n: nat, acc: Option<Path>)
    requires n <= |entries|
  {
    var first := Seqs.FirstIndex((e: SevenZEntry) => e.isDirectory, entries[..n]);
    && (acc.None? <==> first == n)
    && (acc.Some? ==>
          && first < n
          && (exists i :: first <= i < n && entries[i].isDirectory && entries[i].dest == acc.value)
          && StartsWith(entries[first].dest, acc.value)
          && (forall i :: 0 <= i < n && entries[i].isDirectory && StartsWith(entries[first].dest, entries[i].dest)
                ==> StartsWith(entries[i].dest, acc.value)))
  }

  /**
   * The 7z extract callback folded over the entries from index `i` on: a
   * directory replaces the tracked folder when none is tracked yet or when
   * the tracked folder lies inside it.
   */
  function SevenZTrack(entries: seq<SevenZEntry>, i: nat, acc: Option<Path>): (r: Option<Path>)
    requires i <= |entries| && SevenZSummary(entries, i, acc)
    ensures SevenZSummary(entries, |entries|, r)
    decreases |entries| - i
  {
    if i == |entries| then
      assert entries[..i] == entries;
      acc
    else
      var e := entries[i];
      var acc' := if e.isDirectory && (acc.None? || StartsWith(acc.value, e.dest)) then Some(e.dest) else acc;
      SevenZStep(entries, i, acc);
      SevenZTrack(entries, i + 1, acc')
  }

  /** One step of the 7z fold keeps the summary. */
  lemma SevenZStep(entries: seq<SevenZEntry>, i: nat, acc: Option<Path>)
    requires i < |entries| && SevenZSummary(entries, i, acc)
    ensures SevenZSummary(entries, i + 1,
      if entries[i].isDirectory && (acc.None? || StartsWith(acc.value, entries[i].dest)) then Some(entries[i].dest) else acc)
  {
    var isDir := (e: SevenZEntry) => e.isDirectory;
    var e := entries[i];
    assert entries[..i + 1] == entries[..i] + [e];
    Seqs.FirstIndexAppend(isDir, entries[..i], [e]);
    var first := Seqs.FirstIndex(isDir, entries[..i]);
    var acc' := if e.isDirectory && (acc.None? || StartsWith(acc.value, e.dest)) then Some(e.dest) else acc;
    if acc.None? {
      if e.isDirectory {
        assert Seqs.FirstIndex(isDir, [e]) == 0;
        assert first == i;
        forall j | 0 <= j < i + 1 && entries[j].isDirectory && StartsWith(entries[i].dest, entries[j].dest)
          ensures StartsWith(entries[j].dest, e.dest)
        {
          assert j == i;
        }
      }
    } else {
      var f := entries[first].dest;
      if e.isDirectory && StartsWith(f, e.dest) {
        if StartsWith(acc.value, e.dest) {
          StartsWithTrans(f, acc.value, e.dest);
          forall j | 0 <= j < i + 1 && entries[j].isDirectory && StartsWith(f, entries[j].dest)
            ensures StartsWith(entries[j].dest, e.dest)
          {
            if j < i {
              StartsWithTrans(entries[j].dest, acc.value, e.dest);
            }
          }
        } else {
          PrefixesComparable(f, acc.value, e.dest);
          assert StartsWith(e.dest, acc.value);
        }
      }
    }
  }

  /**
   * The 7z top folder: the file name of the outermost directory entry that
   * contains the first directory entry.
   */
  function SevenZTopFolder(entries: seq<SevenZEntry>): (r: Option<string>)
    ensures r.Some? ==> exists i :: 0 <= i < |entries| && entries[i].isDirectory && FileName(entries[i].dest) == r
    ensures (forall i :: 0 <= i < |entries| ==> !entries[i].isDirectory) ==> r.None?
    ensures exists acc :: SevenZSummary(entries, |entries|, acc) && r == (if acc.None? then None else FileName(acc.value))
  {
    assert entries[..0] == [];
    var tracked := SevenZTrack(entries, 0, None);
    assert entries[..|entries|] == entries;
    match tracked
    case None => None
    case Some(folder) => FileName(folder)
  }

  /** Whether a zip entry names a directory. */
  predicate ZipDir(e: ZipEntry) {
    e.enclosed && Strings.EndsWith(e.name, "/")
  }

  /**
   * Entry `k` is the first of the shortest directory names among
   * `entries[..n]`, length counted in UTF-8 bytes as Rust's `str::len`
   * does: every directory name there is longer, or as long and later.
   */
  predicate ZipTopAt(entries: seq<ZipEntry>, n: nat, k: nat)
    requires n <= |entries|
  {
    && k < n && ZipDir(entries[k])
    && forall j | 0 <= j < n && ZipDir(entries[j]) ::
         || Strings.ByteLen(entries[k].name) < Strings.ByteLen(entries[j].name)
         || (Strings.ByteLen(entries[k].name) == Strings.ByteLen(entries[j].name) && k <= j)
  }

  /**
   * The zip top folder so far summarises `entries[..n]`: the name of its
   * first shortest directory, nothing when it has no directory.
   */
  predicate ZipSummary(entries: seq<ZipEntry>, n: nat, acc: Option<string>)
    requires n <= |entries|
  {
    match acc
    case None => forall j | 0 <= j < n :: !ZipDir(entries[j])
    case Some(a) => exists k: nat | k < n :: ZipTopAt(entries, n, k) && entries[k].name == a
  }

  /**
   * One entry of the unzip loop: a directory name replaces the tracked one
   * when none is tracked yet or when it is strictly shorter in UTF-8 bytes.
   */
  function ZipNext(e: ZipEntry, acc: Option<string>): (r: Option<string>)
    ensures r == acc || r == Some(e.name)
    ensures !ZipDir(e) ==> r == acc
    ensures ZipDir(e) ==> r.Some? && (acc.Some? ==> Strings.ByteLen(r.value) <= Strings.ByteLen(acc.value))
    ensures acc.Some? && r != acc ==> Strings.ByteLen(r.value) < Strings.ByteLen(acc.value)
  {
    if ZipDir(e) && (acc.None? || Strings.ByteLen(acc.value) > Strings.ByteLen(e.name)) then Some(e.name) else acc
  }

  /**
   * The unzip loop from index `i` on: an entry that cannot be read or
   * written fails the whole extraction, an entry without an enclosed name
   * is skipped, and any other entry goes through `ZipNext`.
   */
  function ZipTrack(entries: seq<ZipEntry>, i: nat, acc: Option<string>): (r: Result<Option<string>, FsError>)
    requires i <= |entries|
    ensures r.Err? <==> exists j :: i <= j < |entries| && !entries[j].intact
    decreases |entries| - i
  {
    if i == |entries| then Ok(acc)
    else
      var e := entries[i];
      if !e.intact then Err(Zip("invalid zip entry"))
      else if !e.enclosed then ZipTrack(entries, i + 1, acc)
      else ZipTrack(entries, i + 1, ZipNext(e, acc))
  }

  /** The loop keeps its summary: what it reports summarises all the entries. */
  lemma {:induction false} ZipTrackSummary(entries: seq<ZipEntry>, i: nat, acc: Option<string>)
    requires i <= |entries| && ZipSummary(entries, i, acc)
    ensures ZipTrack(entries, i, acc).Ok? ==> ZipSummary(entries, |entries|, ZipTrack(entries, i, acc).value)
    decreases |entries| - i
  {
    if i < |entries| && entries[i].intact {
      ZipStep(entries, i, acc);
      ZipTrackSummary(entries, i + 1, ZipNext(entries[i], acc));
    }
  }

  lemma ZipStep(entries: seq<ZipEntry>, i: nat, acc: Option<string>)
    requires i < |entries| && ZipSummary(entries, i, acc)
    ensures ZipSummary(entries, i + 1, ZipNext(entries[i], acc))
  {
    var e := entries[i];
    match acc
    case None =>
      if ZipDir(e) {
        assert ZipTopAt(entries, i + 1, i);
      }
    case Some(a) =>
      var k: nat :| k < i && ZipTopAt(entries, i, k) && entries[k].name == a;
      if ZipDir(e) && Strings.ByteLen(a) > Strings.ByteLen(e.name) {
        assert ZipTopAt(entries, i + 1, i);
      } else {
        assert ZipTopAt(entries, i + 1, k);
      }
  }

  /** The unzip top folder: the first of the shortest directory names, in UTF-8 bytes, among enclosed entries. */
  function ZipTopFolder(entries: seq<ZipEntry>): (r: Result<Option<string>, FsError>)
    ensures r.Err? <==> exists j :: 0 <= j < |entries| && !entries[j].intact
    ensures r.Ok? ==> ZipSummary(entries, |entries|, r.value)
  {
    ZipTrackSummary(entries, 0, None);
    ZipTrack(entries, 0, None)
  }

  /**
   * Byte length, not character count, decides: a four-letter ASCII name
   * (5 bytes with its slash) beats a two-letter Japanese one (7 bytes).
   */
  lemma ZipTopFolderCountsBytes()
    ensures ZipTopFolder([ZipEntry("abcd/", true, true), ZipEntry("\U{65E5}\U{672C}/", true, true)]) == Ok(Some("abcd/"))
  {
    var e0 := ZipEntry("abcd/", true, true);
    var e1 := ZipEntry("\U{65E5}\U{672C}/", true, true);
    assert Strings.EndsWith(e0.name, "/") && Strings.EndsWith(e1.name, "/");
    assert Strings.ByteLen("abcd/") == 5;
    assert Strings.ByteLen("\U{65E5}\U{672C}/") == 7;
  }

  /** One trailing `/` is dropped from the reported folder. */
  function TrimSlash(folder: Option<string>): (r: Option<string>)
    ensures r.None? <==> folder.None?
    ensures r.Some? ==> folder.value == r.value || folder.value == r.value + "/"
    ensures r.Some? && Strings.EndsWith(folder.value, "/") ==> folder.value == r.value + "/"
  {
    match folder
    case None => None
    case Some(f) =>
      if Strings.EndsWith(f, "/") then
        assert f == f[..|f| - 1] + "/";
        Some(f[..|f| - 1])
      else Some(f)
  }

  /** The raw folder the selected extractor reports, or its failure on a payload it cannot read. */
  function RawTopFolder(x: Extractor, payload: Payload): (r: Result<Option<string>, FsError>)
    ensures x == Unzip ==> (r.Ok? <==> payload.ZipArchive? && forall j :: 0 <= j < |payload.zipEntries| ==> payload.zipEntries[j].intact)
    ensures x == Unzip && r.Ok? ==> ZipSummary(payload.zipEntries, |payload.zipEntries|, r.value)
    ensures x == SevenZip ==> (r.Ok? <==> payload.SevenZArchive?)
    ensures x == SevenZip && r.Ok? ==>
      exists acc :: SevenZSummary(payload.sevenZEntries, |payload.sevenZEntries|, acc)
                    && r.value == (if acc.None? then None else FileName(acc.value))
    ensures x == Deflate ==> (r.Ok? <==> payload.TarGz?)
    ensures x == Deflate && r.Ok? ==>
      (r.value.None? <==>
         || |payload.tarEntries| == 0 || |payload.tarEntries[0].path| == 0
         || (|payload.tarEntries[0].path| == 1 && IsMarker(payload.tarEntries[0].path[0])))
  {
    match x
    case Unzip => if payload.ZipArchive? then ZipTopFolder(payload.zipEntries) else Err(Zip("invalid zip archive"))
    case SevenZip => if payload.SevenZArchive? then Ok(SevenZTopFolder(payload.sevenZEntries)) else Err(SevenZ("bad 7z archive"))
    case Deflate => if payload.TarGz? then Ok(TarTopFolder(payload.tarEntries)) else Err(Io(NotFound([])))
  }

  /**
   * Extracts the downloaded `file` and reports the top folder of the
   * extracted tree, without a trailing `/` (`decompress`).
   */
  function Decompress(file: Path, payload: Payload): (r: Result<Option<string>, FsError>)
    ensures ExtensionOf(file).None? ==> r == Err(UnsupportedFile(""))
    ensures ExtensionOf(file).Some? ==>
      match RawTopFolder(ExtractorFor(ExtensionOf(file)).value, payload)
      case Err(e) => r == Err(e)
      case Ok(f) => r.Ok? && (r.value.None? <==> f.None?)
                    && (r.value.Some? ==> f.value == r.value.value || f.value == r.value.value + "/")
                    && (r.value.Some? && Strings.EndsWith(f.value, "/") ==> f.value == r.value.value + "/")
  {
    match ExtractorFor(ExtensionOf(file))
    case Err(e) => Err(e)
    case Ok(x) =>
      match RawTopFolder(x, payload)
      case Err(e) => Err(e)
      case Ok(f) => Ok(TrimSlash(f))
  }

  /** A zip directory name loses exactly its trailing `/`. */
  lemma ZipFolderLosesSlash(file: Path, entries: seq<ZipEntry>)
    requires ExtensionOf(file) == Some(Utf8("zip"))
    requires Decompress(file, ZipArchive(entries)).Ok?
    requires Decompress(file, ZipArchive(entries)).value.Some?
    ensures exists i :: 0 <= i < |entries| && ZipDir(entries[i])
              && entries[i].name == Decompress(file, ZipArchive(entries)).value.value + "/"
  {
    var raw := ZipTopFolder(entries).value;
    var i: nat :| i < |entries| && ZipTopAt(entries, |entries|, i) && entries[i].name == raw.value;
    assert Strings.EndsWith(raw.value, "/");
  }

  /**
   * A 7z archive always decompresses, and a folder it reports is the file
   * name of a directory entry that is the outermost one containing the
   * first directory entry, less a trailing `/`.
   */
  lemma SevenZFolderIsOutermost(file: Path, entries: seq<SevenZEntry>)
    requires ExtensionOf(file) == Some(Utf8("7z"))
    ensures Decompress(file, SevenZArchive(entries)).Ok?
    ensures var r := Decompress(file, SevenZArchive(entries)).value;
      r.Some? ==>
        exists i :: 0 <= i < |entries| && entries[i].isDirectory
                    && SevenZSummary(entries, |entries|, Some(entries[i].dest))
                    && (FileName(entries[i].dest) == Some(r.value) || FileName(entries[i].dest) == Some(r.value + "/"))
  {
    var r := Decompress(file, SevenZArchive(entries)).value;
    if r.Some? {
      var acc :| SevenZSummary(entries, |entries|, acc)
                 && SevenZTopFolder(entries) == (if acc.None? then None else FileName(acc.value));
      var i :| 0 <= i < |entries| && entries[i].isDirectory && entries[i].dest == acc.value;
      assert SevenZSummary(entries, |entries|, Some(entries[i].dest));
    }
  }

  /** The regular files an extraction leaves below `to`. */
  function Unpacked(payload: Payload, to: Path): set<Path> {
    match payload
    case TarGz(es) =>
      set i | 0 <= i < |es| && !es[i].isDir && TarDestination(to, es[i].path).Some? :: TarDestination(to, es[i].path).value
    case SevenZArchive(es) => set i | 0 <= i < |es| && !es[i].isDirectory :: es[i].dest
    case ZipArchive(es) => set i | 0 <= i < |es| && es[i].enclosed && !ZipDir(es[i]) :: Child(to, es[i].name)
    case Garbage => {}
  }
}
