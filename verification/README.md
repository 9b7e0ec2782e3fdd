# sys-kaleido, modelled in Dafny

sys-kaleido is a package manager for command-line tools distributed as
GitHub releases. It keeps everything under one home directory:

- `packages/<name>/<version>/` holds the installed binaries;
- `bin/` and `alias/` hold the symbolic links that expose them;
- `tmp/` is a scratch workspace for downloads and extraction;
- `kaleido.toml` is the system catalog of packages and bindles, and an optional user catalog adds more.

This project models the core of that program as pure Dafny functions over
an abstract file system. The file system has directories, regular files,
a map of symbolic links with their targets, and a set of locked paths.
Removing, renaming, creating or overwriting a file at a locked path fails,
and so does removing a directory tree that holds one. Creating a directory
or a link and unpacking an archive do not consult the set. The model covers:

- the catalog and its lookups;
- the `install`, `update`, `uninstall`, `search`, `bindle` and `config` commands;
- the binary-release installer and the source-build installer;
- the GitHub release and asset lookup;
- the download channel protocol;
- the archive top-folder rules;
- how installed packages are read back from `bin/`.

The model has no network or console. What it would read from them is an
input:

- the release pages;
- the HTTP replies and bodies;
- the archive contents;
- the typed prompt answers;
- the `bin`/`alias` directory listings;
- the catalog file's age;
- the outcome of the build process.

Every command returns the file system it leaves and a trace of effects
(downloads, removals, links made, messages printed), and the contracts are
stated over these.

Modules follow the program's structure:

| Module | What it models |
|---|---|
| `Wrappers`, `Seqs`, `Strings`, `Paths` | shared vocabulary |
| `FileSystem` | the standard file-system calls and the tool's link helpers |
| `Catalog` | `src/tool/kaleido.rs` |
| `Console` | `src/tool/global_input.rs` |
| `Http` | `src/tool/http.rs` |
| `Archive` | the archive part of `src/tool/fs.rs` |
| `Release` | `src/action/installer/install.rs` |
| `Layout` | the package-path conventions |
| `Trace`, `Installer` | shared installer steps |
| `BinInstaller`, `SrcInstaller` | the two Rust installers |
| `Execute` | `src/action/installer/execute.rs` |
| `Uninstall` | `src/action/uninstall.rs` |
| `Helper` | `src/action/helper.rs` |
| `Bindles` | `src/action/bindle.rs` |
| `Search` | `src/action/search.rs` |
| `Config` | `src/action/config.rs` |
| `Cli` | the command dispatch of `src/main.rs` |

## Model

| member | source | states |
|---|---|---|
| Catalog.LoadConfig | src/tool/kaleido.rs:54-83 | A missing system catalog is an error. With no user catalog the result is the system catalog. With both, the result is the system packages and bindles followed by the user ones, duplicates kept. An unreadable or malformed file is an error. |
| Catalog.FindPackage | src/action/installer/execute.rs:52-58 | The result is the first package with the name, and nothing exactly when no package has it. |
| Catalog.FindBindle | src/action/bindle.rs:127-133 | The result is the first bindle with the name, and nothing exactly when no bindle has it. |
| Catalog.SystemShadowsCustom | src/tool/kaleido.rs:66-79 | In the merged catalog a system entry hides every user entry of the same name. A user entry is found only when the system catalog has none. |
| Console.Normalise | src/tool/global_input.rs:25 | The answer is no longer than the typed line, has no surrounding whitespace and has no upper-case ASCII letter. |
| Console.NormaliseIsTrimmedSlice | src/tool/global_input.rs:25 | The answer is one slice of the line, with each character lower-cased in place. Everything of the line before and after that slice is whitespace. |
| Console.YesIff | src/action/installer/rust_bin_installer.rs:190 | The test `answer == "y"` holds exactly for lines that are a single `y` or `Y` with optional surrounding blanks. |
| Console.NormaliseIdempotent | src/tool/global_input.rs:25 | Normalising an already normalised answer changes nothing. |
| Http.FirstBroken | src/tool/http.rs:112-126 | Every chunk before the result index was delivered, and the chunk at that index, if any, is broken. |
| Http.ChunkEvents | src/tool/http.rs:112-126 | The producer sends one progress message per intact chunk with the running byte count, then exactly one terminal message. That message is `Complete` exactly when every chunk was intact; otherwise it carries the first broken chunk's error. |
| Http.DownloadEvents | src/tool/http.rs:97-128 | Exactly one terminal message is sent, and it is the last one. It is `Complete` exactly when the request succeeded, the file could be created and the whole body arrived. |
| Http.Consume | src/tool/http.rs:35-86 | A stream with no terminal message ends successfully. A stream that starts with a terminal message succeeds exactly when that message is `Complete`. |
| Http.ConsumeStopsAtTerminal | src/tool/http.rs:35-85 | Messages after the first terminal one never change the outcome. |
| Http.ConsumeLast | src/tool/http.rs:35-86 | With one terminal message at the end, the consumer succeeds exactly when it is `Complete`, and a `Failure` is reported with its message. |
| Http.DownloadWithProgress | src/tool/http.rs:17-87 | The download succeeds exactly when the server answered, the target could be created and every chunk arrived. A refused request leaves the file system untouched. The target file is created as soon as the server answers, so a broken body leaves a partial file, and the error is the first broken chunk's. |
| Http.DownloadFile | src/tool/http.rs:89-95 | A failed request leaves the file system untouched. Success means the body arrived and the target is now a regular file. |
| FileSystem.RemoveFile | src/action/installer/rust_bin_installer.rs:37-38 | Removal succeeds exactly on an unlocked file or link. A link is removed itself, never its target. |
| FileSystem.RemoveDirAll | src/action/installer/rust_bin_installer.rs:53-55 | A link is removed exactly when it is unlocked, without following it. A directory is removed, with everything below it, exactly when nothing at or below it is locked. |
| FileSystem.RemoveDirAllRefusesLocked | src/action/uninstall.rs:31-35 | A locked path anywhere in a directory tree makes its removal fail. |
| FileSystem.CreateDir | src/action/installer/execute.rs:67 | Creation succeeds exactly when nothing occupies the path and its parent is a directory. Only that directory is added. |
| FileSystem.CreateDirAll | src/action/installer/rust_bin_installer.rs:74 | Creation fails exactly when the path or one of its ancestors is a file, a link to a file or a dangling link. On success every one of them is a directory, directly or through a link. Every directory it adds is an ancestor of the path or the path itself. Files and links are unchanged. |
| FileSystem.CreateDirAllIdempotent | src/action/installer/rust_bin_installer.rs:74 | Creating a directory tree that was just created succeeds again and changes nothing. |
| FileSystem.CreateDirAllRefusesDanglingLink | src/action/installer/rust_bin_installer.rs:74 | A dangling link at the path or at one of its ancestors makes creation fail. |
| FileSystem.Copy | src/action/installer/rust_bin_installer.rs:88-89 | Copying needs a source file, a directory as the destination's parent and a destination that is neither a directory nor locked. Afterwards the destination is a file. |
| FileSystem.Rename | src/action/config.rs:27-33 | Renaming needs an unlocked source file and an unlocked destination that is not a directory and whose parent is one. Afterwards the file is at the destination and gone from its old place, a link at the destination is replaced without being followed, and nothing else changes. |
| FileSystem.MakeLink | src/tool/fs.rs:313-318 | Making a link succeeds exactly when nothing, not even a dangling link, occupies the link path and its parent is a directory. The target need not exist. |
| FileSystem.RemoveLink | src/tool/fs.rs:331-336 | The entry itself is removed, never what it points to, and no directory changes. |
| FileSystem.MakeThenRemoveLink | src/tool/fs.rs:313-336 | A link just made reads back its target, and removing it restores the file system exactly. |
| FileSystem.TmpNotUnderPackages | src/tool/fs.rs:65-84 | Nothing below the workspace is below the packages directory. |
| Archive.GetFileType | src/tool/fs.rs:93-111 | A file whose name ends in `.zip`, `.7z` or `.gz` is compressed. One with no extension, or an empty one, is plain. Any other is unknown. |
| Archive.FileTypeOfExtension | src/tool/fs.rs:93-111 | `zip`, `7z` and `gz` are compressed. No extension, or an empty one, is plain. Everything else is unknown. |
| Archive.ExtractorFor | src/tool/fs.rs:113-129 | A missing extension is refused. `zip` and `7z` pick their extractors. Every other extension, including one that is not UTF-8, goes to the gzip'd tar extractor. |
| Archive.CompressionHasExtractor | src/tool/fs.rs:93-129 | Every extension classified as compressed has an extractor, and `gz` goes to the tar extractor. |
| Archive.TarTopFolder | src/tool/fs.rs:154-177 | Only the first entry is consulted. The folder is its first component, or its second when the first is a root, current or parent marker. There is none when no such component exists. |
| Archive.TarTopFolderIsUnpackRoot | src/tool/fs.rs:154-177 | The reported folder is the first directory level below the destination into which the first entry is unpacked. |
| Archive.SevenZTopFolder | src/tool/fs.rs:180-200 | The folder is the file name of the outermost directory entry that contains the first directory entry, and there is none when the archive has no directory entry. |
| Archive.SevenZFolderIsOutermost | src/tool/fs.rs:113-143 | A `.7z` file whose payload reads as a 7z archive decompresses; extraction writes are not modelled as failing. A folder it reports is, up to one trailing `/`, the file name of the outermost directory entry that contains the first one. |
| Archive.SevenZStep | src/tool/fs.rs:183-187 | One callback step keeps the summary of the entries seen so far: the outermost directory that contains the first directory entry. |
| Archive.ZipTrack | src/tool/fs.rs:206-236 | The loop fails exactly when some entry from the current index on cannot be read or written; the name it tracks is stated by `Archive.ZipTrackSummary`, in UTF-8 bytes. |
| Archive.ZipNext | src/tool/fs.rs:218-225 | A non-directory leaves the tracked name alone. A directory name replaces it only when none is tracked or the new one is strictly shorter in UTF-8 bytes, so the first of equally long names stays. |
| Archive.ZipTrackSummary | src/tool/fs.rs:208-225 | On success the tracked name is the first of the shortest directory names, counted in UTF-8 bytes, among entries with an enclosed name, or nothing when there is no such directory. |
| Archive.ZipTopFolder | src/tool/fs.rs:202-238 | The unzip top folder fails exactly when some entry is broken. Otherwise it is the first enclosed directory name that is shortest in UTF-8 bytes. |
| Archive.ZipTopFolderCountsBytes | src/tool/fs.rs:218-225 | Bytes, not characters, decide: `abcd/` (5 bytes) wins over the two-character `日本/` (7 bytes). |
| Archive.RawTopFolder | src/tool/fs.rs:113-238 | Each extractor fails on a payload of another kind. The zip extractor also fails exactly on a broken entry and otherwise reports its shortest directory. The 7z extractor reports its outermost directory's name. The tar extractor reports no folder exactly when the first entry has no usable first component. |
| Archive.TrimSlash | src/tool/fs.rs:131-140 | A folder keeps its presence. At most one trailing `/` is dropped, and one is dropped whenever present. |
| Archive.Decompress | src/tool/fs.rs:113-143 | A file without an extension is refused. Otherwise the extractor's error is passed on, or its folder is reported, and a folder ending in `/` loses exactly that `/`. |
| Archive.ZipFolderLosesSlash | src/tool/fs.rs:131-140 | A reported zip folder is a directory entry's name with exactly its trailing `/` removed. |
| Paths.Join | src/action/installer/rust_bin_installer.rs:99-106 | Joining a relative path to a non-empty base stays below the base. |
| Paths.SetExtensionRoundTrip | src/action/installer/rust_bin_installer.rs:50-51 | `set_extension` with a non-empty, dot-free extension makes it the extension and keeps the stem. |
| Paths.StemExtension | src/action/installer/rust_bin_installer.rs:50-51 | A name that `set_extension` works on splits into its stem, then a dot and its extension when it has one, and a non-empty name has a non-empty stem. |
| Layout.SimpleLayout | src/action/installer/rust_bin_installer.rs:45-51 | With plain names the version directory is `packages/<name>/<version>` and the binary is `<bin name>` with the platform's executable extension inside it. |
| Layout.LinkEntriesApart | src/action/installer/rust_bin_installer.rs:120-134 | The `bin` link and the alias link are distinct entries outside the workspace, and nothing in the packages tree is either of them. |
| Layout.AreasDisjoint | src/tool/fs.rs:15-58 | No path lies below two different sub-directories of the home. |
| Release.TagCandidates | src/action/installer/install.rs:107-111 | The version is always a candidate tag. `v` plus the version is one exactly when the version is neither `LATEST` nor starts with `v`. |
| Release.Accepts | src/action/installer/install.rs:127-134 | For `LATEST`, a release qualifies exactly when it is neither a draft nor a pre-release. Otherwise its tag must be the version, or `v` plus a version that does not start with `v`. |
| Release.FindInPage | src/action/installer/install.rs:127-134 | The result is the first accepted release of the page, and nothing exactly when none is accepted. |
| Release.FindGithubRelease | src/action/installer/install.rs:104-150 | The scan stops at the first page that failed, is empty or has an accepted release. A release it returns is always accepted. |
| Release.ScanSkipsPassedPages | src/action/installer/install.rs:122-140 | Every page before the stopping page was listed, non-empty and had no accepted release. |
| Release.ScanShortCircuits | src/action/installer/install.rs:123-135 | Pages after the stopping page are never consulted. |
| Release.LatestSkipsDraftAndPrerelease | src/action/installer/install.rs:128-129 | For `LATEST`, drafts and pre-releases are passed over, and the first regular release is returned. |
| Release.VersionTagTolerance | src/action/installer/install.rs:107-111 | `1.2.0` is found under tag `1.2.0` or `v1.2.0` but not `1.2.0-rc1`, and `v1.2.0` is not found under `vv1.2.0`. |
| Release.ToGithubOs | src/action/installer/install.rs:152-157 | `macos` becomes `darwin`, and every other name is unchanged. |
| Release.ToGithubArch | src/action/installer/install.rs:159-161 | The architecture name is unchanged. |
| Release.AssetMatchesIff | src/action/installer/install.rs:58-70 | An asset matches exactly when the architecture, the GitHub OS name, the ABI and the prefix (if any) each occur as whole `-`/`.`-separated tokens of its name. An ABI containing `-` or `.` never matches. |
| Release.SelectAssets | src/action/installer/install.rs:58-75 | Every selected asset comes from a matching release asset, and every matching asset is selected. |
| Release.SelectAssetsAppend | src/action/installer/install.rs:58-75 | Selection distributes over concatenation, so release order is kept. |
| Release.FindAssets | src/action/installer/install.rs:34-87 | A package without GitHub coordinates is refused. Lookup errors and "no release" become the matching errors. On success the release tag is the installed version, the source URL is the zipball, and the assets are exactly the matching ones. A pinned version yields its tag or `v` plus it. |
| Release.MuslAssetExample | src/action/installer/install.rs:58-70 | A `…-x86_64-unknown-linux-musl.tar.gz` asset is picked for the `musl` ABI (with or without the `tool` prefix) and passed over for `gnu`. |
| Release.DarwinAssetExample | src/action/installer/install.rs:58-70 | A `…-aarch64-apple-darwin.zip` asset matches on macOS only when the ABI asked for is `darwin`. With the macOS default ABI (`gnu`) it is passed over, and on Linux it never matches. |
| Installer.RemoveStale | src/action/installer/rust_bin_installer.rs:37-43 | Only an existing regular file is removed, and a locked one fails with permission denied. Directories are never touched. A failure changes nothing. |
| Installer.RemoveTreeIfDir | src/action/installer/rust_bin_installer.rs:53-55 | Only a directory is removed, with everything below it. A real directory is removed exactly when nothing at or below it is locked, and a failure changes nothing. Nothing is added, and surviving links keep their targets. |
| Installer.MakeDirs | src/action/installer/rust_bin_installer.rs:74 | `create_dir_all` fails exactly when a file, a link to one or a dangling link sits at the path or an ancestor. It only adds directories, the path among them. |
| Installer.Fetch | src/action/installer/rust_bin_installer.rs:68 | The download succeeds exactly when the body arrived whole into a creatable file. At most that one file is added, and a failure is a download error. |
| Installer.Relink | src/action/installer/rust_bin_installer.rs:120-125 | On success the link points at the target and every other link is unchanged. A dangling link already at that place is not a file, so it blocks the new link with "already exists". |
| Installer.ClearTmp | src/action/installer/rust_bin_installer.rs:136 | The outcome is always success. Nothing outside the workspace changes, and a workspace directory with nothing locked in it ends up holding no file. |
| Installer.ExposeLinks | src/action/installer/rust_bin_installer.rs:120-136 | After a successful exposure the `bin` link, and the alias link when asked, point at the package binary. No other link is added. Package files and directories outside the workspace are kept. |
| BinInstaller.ExtractedBinInTmp | src/action/installer/rust_bin_installer.rs:99-107 | With relative folder and bin-path names, the binary looked up after extraction lies in the workspace and is named `<bin name>` with the executable extension. |
| BinInstaller.Place | src/action/installer/rust_bin_installer.rs:80-118 | Placing only adds files: the binary or extracted files. On success the binary is a file. An asset of unknown type fails with "unsupported file type" and changes nothing. |
| BinInstaller.PlaceFromArchive | src/action/installer/rust_bin_installer.rs:96-113 | Only the extracted files and the binary are added. On success the binary is a file. |
| BinInstaller.ArchiveBinaryPlaced | src/action/installer/rust_bin_installer.rs:96-109 | When the extracted tree holds the binary where the package says it is, the copy succeeds. |
| BinInstaller.Stage | src/action/installer/rust_bin_installer.rs:68-78 | The download comes first, no link changes, and on success the version directory exists. |
| BinInstaller.DeliverLinks | src/action/installer/rust_bin_installer.rs:68-134 | A successful delivery leaves the binary, not a link, in its version directory, with the `bin` link (and the alias link) pointing at it. |
| BinInstaller.StaleKeepsInstalled | src/action/installer/rust_bin_installer.rs:35-43 | Removing a stale download elsewhere keeps an installed version in place. |
| BinInstaller.SkipWhenInstalled | src/action/installer/rust_bin_installer.rs:53-66 | Without `force`, an installed version is not downloaded again and no directory changes. Success is reported as "already installed". |
| BinInstaller.ForceRemovesOldVersionFirst | src/action/installer/rust_bin_installer.rs:53-68 | With `force` and nothing locked in the installed version directory, that directory is removed first and the download follows right after. |
| BinInstaller.ForceStopsAtLockedTree | src/action/installer/rust_bin_installer.rs:53-55 | With `force` and a locked path in the installed version directory, the install fails at the removal, downloads nothing and changes nothing. |
| BinInstaller.UnknownAssetNeverInstalls | src/action/installer/rust_bin_installer.rs:91-95 | An asset of unknown type never installs. A run that downloaded it fails. |
| BinInstaller.InstallLinksBinary | src/action/installer/rust_bin_installer.rs:26-138 | A successful install that downloaded leaves the binary in `packages/<name>/<version>`, with `bin` (and the alias) linked to it. |
| BinInstaller.SecondInstallSkips | src/action/installer/rust_bin_installer.rs:53-66 | Installing the same version again without `force` downloads nothing and changes no directory. |
| BinInstaller.Deliver | src/action/installer/rust_bin_installer.rs:68-137 | Delivery starts with the download and builds nothing. An asset of unknown type that is not the executable itself fails. |
| BinInstaller.Replace | src/action/installer/rust_bin_installer.rs:53-137 | Replacing an installed version builds nothing. An asset of unknown type that is not the executable itself fails. |
| BinInstaller.InstallInto | src/action/installer/rust_bin_installer.rs:34-137 | The binary installer never builds. |
| BinInstaller.InstallPackage | src/action/installer/rust_bin_installer.rs:26-138 | Installing a release's first asset never builds. |
| BinInstaller.Reported | src/action/installer/rust_bin_installer.rs:168-178 | The step's trace is kept, followed by exactly one success or failure message. |
| BinInstaller.FromSource | src/action/installer/rust_bin_installer.rs:190-201 | After a yes, the source installer runs and its outcome is reported in one message. A build starts exactly when the source installer starts one. |
| BinInstaller.Offer | src/action/installer/rust_bin_installer.rs:179-203 | The prompt is shown first. A read failure ends the install with only that failure. A yes runs the source installer. Any other answer ends it after the prompt. A build starts exactly on a yes whose source install starts one. |
| BinInstaller.Install | src/action/installer/rust_bin_installer.rs:142-207 | A lookup error is reported and changes nothing. With an asset, the first asset is installed and the outcome reported as installed or failed. No asset and no source archive reports that nothing fits. No asset but a source archive shows the prompt. After it, a read failure or an answer other than yes ends the install. |
| BinInstaller.BuildOnlyOnYes | src/action/installer/rust_bin_installer.rs:179-203 | A build starts only for a release without a matching asset but with a source archive, and only after a yes answer. |
| BinInstaller.BuildOnYes | src/action/installer/rust_bin_installer.rs:179-203 | Conversely, when there is no asset but a source archive and the answer is yes, a build starts exactly when the source installer starts one. |
| SrcInstaller.RunBuild | src/action/installer/rust_src_installer.rs:66-127 | A build that cannot start is logged and reports success without linking. A failed build is an error without linking. |
| SrcInstaller.UnpackAndBuild | src/action/installer/rust_src_installer.rs:50-127 | Nothing is linked unless the build succeeded. When the build cannot start, success is reported exactly when the build was reached. |
| SrcInstaller.ClearWorkspace | src/action/installer/rust_src_installer.rs:20-36 | Clearing downloads, builds and links nothing, and adds no link. |
| SrcInstaller.Prepare | src/action/installer/rust_src_installer.rs:16-42 | Preparation links and builds nothing, and adds no link. |
| SrcInstaller.InstallPackage | src/action/installer/rust_src_installer.rs:14-131 | A build that cannot start links nothing yet reports success once the build was reached. A build that exits unsuccessfully fails before anything is linked. |
| SrcInstaller.Publish | src/action/installer/rust_src_installer.rs:78-123 | Publishing downloads and builds nothing, and a successful publish copied the built binary into the version directory. |
| SrcInstaller.PublishLinks | src/action/installer/rust_src_installer.rs:78-117 | A successful publish leaves the binary in its version directory and the `bin` link on it. |
| SrcInstaller.SourceInstallLinks | src/action/installer/rust_src_installer.rs:14-131 | A source install whose build succeeds and reports success has installed and linked the binary. |
| Execute.ResetTmp | src/action/installer/execute.rs:60-70 | On success the workspace is an empty directory, and nothing outside it changed. A file in its place, or a locked path inside the workspace directory, fails the request. |
| Execute.IsRust | src/action/installer/execute.rs:72-74 | A language goes to the Rust installer exactly when it has four letters that lower-case to `r`, `u`, `s`, `t`. |
| Execute.IsRustSpelling | src/action/installer/execute.rs:72-84 | A language reaches the Rust installer exactly when it spells "rust" in any letter case. |
| Execute.Lookup | src/action/installer/execute.rs:44-58 | A package found for a request has the requested name and comes from a loaded catalog. |
| Execute.InstallOne | src/action/installer/execute.rs:31-85 | The request is announced first. A catalog failure or an unknown name is reported and changes nothing. Otherwise the workspace reset comes next, and the package's own installer runs only for Rust. |
| Execute.Batch | src/action/installer/execute.rs:18-29 | There is one outcome per request, in order, each starting from the file system the previous one left. |
| Execute.InstallAll | src/action/installer/execute.rs:18-29 | There is one outcome per request, in order. Each comes from `install_one` with the Rust installer for that request, started from the file system the previous one left. |
| Execute.EveryRequestAttempted | src/action/installer/execute.rs:18-29 | Every request is announced and attempted, whatever happened to the requests before it. |
| Uninstall.Targets | src/action/uninstall.rs:14-18 | The targets are exactly the `packages/<name>` directories of the named packages that exist. |
| Uninstall.Victim | src/action/uninstall.rs:57 | As written, the removal is given the link's target. Corrected, it is given the link entry itself. |
| Uninstall.Claimed | src/action/uninstall.rs:54-56 | A target is claimed exactly when it starts with the packages directory and with one of the targeted package directories. |
| Uninstall.Unlink | src/action/uninstall.rs:57-62 | One removal either removes the path or logs the failure and changes nothing. |
| Uninstall.Unlinks | src/action/uninstall.rs:55-61 | Only the victim can disappear. It does when the target lies in some targeted directory and it is an unlocked link. Nothing happens when the target lies in none. |
| Uninstall.SweepEntry | src/action/uninstall.rs:48-63 | Only a symbolic link whose target is claimed by a targeted directory is acted on. Then only the victim is removed. |
| Uninstall.Sweep | src/action/uninstall.rs:38-84 | The sweep only removes. The corrected rule removes every unlocked claimed link listed before the first listing error. The rule as written never removes a link outside the packages tree. |
| Uninstall.SweepDir | src/action/uninstall.rs:38-47 | A directory that cannot be listed is logged and left alone. |
| Uninstall.RemoveTree | src/action/uninstall.rs:31-35 | `remove_dir_all` succeeds exactly on an unlocked link, or on a directory with nothing locked at or below it, and then clears the tree. It never removes a link outside it. |
| Uninstall.RemovePackages | src/action/uninstall.rs:31-35 | Each target gets exactly one removal or failure message, in order. Links outside every target survive. |
| Uninstall.RemovePackagesClears | src/action/uninstall.rs:31-35 | Every real target directory with nothing locked in it is cleared, whatever the others do. |
| Uninstall.UninstallWith | src/action/uninstall.rs:13-36 | The command only removes, and every link removal comes before every tree removal. |
| Uninstall.ClaimIsComponentWise | src/action/uninstall.rs:54-56 | `packages/foo` claims nothing inside `packages/foobar`: ownership is decided on whole path components. |
| Uninstall.UninstallClearsPackages | src/action/uninstall.rs:13-36 | Every named package whose directory is a real directory with nothing locked in it is gone, with all that was below it. |
| Uninstall.UninstallAsWritten | src/action/uninstall.rs:13-84 | The command as written only removes. |
| Uninstall.AsWrittenKeepsOutsideLinks | src/action/uninstall.rs:50-61 | As written, no link outside the packages tree is removed or redirected. |
| Uninstall.AsWrittenLeavesDanglingLink | src/action/uninstall.rs:57 | As written, a `bin` or alias link into a removed package survives, dangling, and a later install cannot make a link there again. |
| Uninstall.Uninstall | src/action/uninstall.rs:13-84 | The corrected command only removes, unlinking before deleting. |
| Uninstall.NoLinkIntoRemovedPackage | src/action/uninstall.rs:38-84 | With both directories fully listed and unlocked, no `bin` or `alias` link is left pointing into a removed package. |
| Helper.PackageMap | src/action/helper.rs:31-35 | The map has exactly the catalog names as keys, and each maps to a catalog package of that name. |
| Helper.PackageMapLastWins | src/action/helper.rs:31-35 | A package with no later namesake is the one the map holds. |
| Helper.MapPrefersLastEntry | src/action/helper.rs:31-35 | For a name listed twice, install takes the first entry while the map takes the last. |
| Helper.Ancestors | src/action/helper.rs:216 | The ancestors are the path itself, then each prefix nearest first. The second one is the parent. |
| Helper.Walk | src/action/helper.rs:216-237 | The walk stops on the trailing child or on one of the ancestors. |
| Helper.WalkFinds | src/action/helper.rs:216-237 | The first ancestor equal to the packages directory stops the walk with the ancestor just below it. |
| Helper.ChildBelowIs | src/action/helper.rs:216-237 | For a normalised target below the packages directory, the walk stops at the component right below it. |
| Helper.AttributeIff | src/action/helper.rs:216-237 | A target is attributed exactly when the component right below the packages directory is a catalog name and the parent has a name. That parent name is the version. |
| Helper.FromSymlink | src/action/helper.rs:205-241 | Only an existing symbolic link whose target starts with the packages directory is attributed. |
| Helper.FromHardlinks | src/action/helper.rs:90-131 | A missing file is not attributed. A hard-link query error is passed on. Fewer than two hard links is an error. |
| Helper.ChildBelow | src/action/helper.rs:104-126 | The walk finds a child exactly when the directory is among the path's ancestors, and the child is a prefix of the path. |
| Helper.FirstOwner | src/action/helper.rs:104-128 | No path under the directory means no attribution. An attribution comes from some path under the directory. |
| Helper.FirstOwnerIsFirstUnder | src/action/helper.rs:104-128 | Only the first hard link below the packages directory is examined, even when it names no catalog package. |
| Helper.HardlinkTexts | src/action/helper.rs:173-195 | When the packages directory has a drive, each line loses its surrounding line ends and gets that drive when it has none. Otherwise the lines are kept as read. |
| Helper.HardlinkTextsCarryDrive | src/action/helper.rs:173-195 | With a drive, every resulting path carries a drive and none ends in a line end. |
| Helper.Collect | src/action/helper.rs:38-71 | The result is exactly the attributed entries before the first listing error. |
| Helper.CollectStopsAtError | src/action/helper.rs:38-71 | Entries after a listing error are never scanned. |
| Helper.GetInstalledPackages | src/action/helper.rs:22-79 | A catalog failure or a listing failure is the command's error. Success implies both loaded. |
| Helper.InstalledRoundTrip | src/action/helper.rs:205-241 | A `bin` link made by an install (to `packages/<name>/<version>/<bin>`) is read back as that package at that version. |
| Helper.LayoutAttributed | src/action/helper.rs:216-237 | `<packages>/<name>/<version>/<file>` is attributed to `<name>` at `<version>`. |
| Bindles.Expand | src/action/bindle.rs:135-151 | Every member becomes a request or a missing name. Requests name catalog packages with no version, and missing names are unknown to the catalog. |
| Bindles.ExpandPartitions | src/action/bindle.rs:135-151 | The requests are the known members in order, carrying their aliases, and the missing names are the unknown members in order. |
| Bindles.GetPackages | src/action/bindle.rs:119-154 | There is nothing when the catalog does not load or has no such bindle. Otherwise the result is the expansion of the first bindle of that name. |
| Bindles.Report | src/action/bindle.rs:83-89 | The missing names are reported exactly when there are any. |
| Bindles.Install | src/action/bindle.rs:71-90 | The known members are installed as the `install` command does, and then the missing names are reported. An unavailable bindle changes nothing. |
| Bindles.Update | src/action/bindle.rs:110-117 | `bindle update` does what `bindle install` does: an unavailable bindle changes nothing, and otherwise the known members are installed and the missing names reported. |
| Bindles.UninstallBindle | src/action/bindle.rs:92-108 | Exactly the known members' names are uninstalled, and then the unknown ones are reported. |
| Bindles.UnknownBindleChangesNothing | src/action/bindle.rs:127-133 | An unknown bindle changes nothing, for install and uninstall alike. |
| Search.ContainsIff | src/action/search.rs:14 | `contains` is substring occurrence. |
| Search.Select | src/action/search.rs:13-18 | Every printed name belongs to a matching package. |
| Search.SelectIsFilter | src/action/search.rs:13-18 | The printed names are the matching packages' names in catalog order. |
| Search.EmptyKeywordListsAll | src/action/search.rs:13-18 | The empty keyword lists the whole catalog. |
| Search.NameOnlyWithoutReplace | src/action/search.rs:14 | A package without `replace` matches exactly when the keyword occurs in its name. |
| Search.SearchCommand | src/action/search.rs:5-19 | Nothing is printed when the catalog does not load. Otherwise the matching names are printed in catalog order. |
| Strings.Utf8Width | src/action/config.rs:63 | A character takes 1 to 4 bytes, and exactly one when it is ASCII. |
| Strings.ByteLen | src/tool/fs.rs:222 | A string is at least as long in UTF-8 bytes as in characters, and exactly as long when it is all ASCII. |
| Strings.ByteLenAppend | src/tool/fs.rs:222 | Byte lengths add up over concatenation. |
| Config.OverAWeek | src/action/config.rs:53 | A file age is over a week exactly when, counted in nanoseconds, it exceeds seven days. |
| Config.AnswerAsWritten | src/action/config.rs:63 | The test as written panics exactly on a non-ASCII first character. Otherwise it holds exactly when the first character is `y`. |
| Config.WantsUpdate | src/action/config.rs:63 | The intended test holds exactly when the answer's first character is `y`. |
| Config.AnswerAgreesUnlessPanic | src/action/config.rs:63 | The byte slice and the first-character test agree unless the program panics. It panics exactly on a non-ASCII first character. |
| Config.AnswerAsWrittenPanics | src/action/config.rs:56-63 | The answer "été" makes the test as written panic. |
| Config.WantsUpdateIff | src/action/config.rs:56-63 | The intended test holds exactly when the typed line's first non-blank character is `y` or `Y`. |
| Config.Replace | src/action/config.rs:20-33 | A failed removal of the old catalog changes nothing. The rename comes only after that removal. A reported update leaves the catalog in place and no temporary file. |
| Config.Update | src/action/config.rs:16-40 | The download comes first, and a failed one changes nothing. A reported update leaves the catalog in place and no temporary file. |
| Config.UpdateInstallsCatalog | src/action/config.rs:16-40 | With a delivered download and nothing in the way, the update ends with the new catalog in place and no temporary file. |
| Config.CheckConfig | src/action/config.rs:42-81 | A missing catalog is updated at once. A catalog whose age is unknown is reported. One no older than seven days is left alone. |
| Config.CheckConfigFetches | src/action/config.rs:42-81 | The catalog is downloaded exactly when it is missing, or over seven days old and the typed line starts with `y` or `Y`. |
| Config.CheckConfigPrompts | src/action/config.rs:49-56 | The prompt is shown exactly when the catalog exists and is over seven days old. |
| Cli.DefaultAbi | src/main.rs:125-133 | The default ABI is `msvc` exactly on Windows, and `gnu` elsewhere. |
| Cli.Context | src/main.rs:39-43 | The given ABI wins over the default, and `force` is passed through. |
| Cli.BuildRequests | src/main.rs:44-48 | There is one request per name, in order. A single name carries the version and alias. Otherwise no request has either. |
| Cli.OptionsNeedOneName | src/main.rs:44-48 | A given version or alias reaches a request exactly when one name is given. |
| Cli.InstallCommand | src/main.rs:37-50 | There is one request per name, in order. Version and alias reach the request only when one name is given. `force` is passed through. The given ABI wins, and otherwise `msvc` on Windows and `gnu` elsewhere. |
| Cli.UpdateCommand | src/main.rs:84-98 | `update` builds the same requests and settings as `install`. |

## Left out

- Networking is left out. Release pages, HTTP replies and download bodies are inputs, and GitHub page numbering is abstract: the pages are a sequence, and pages past its end are empty.
- The channel between the download task and the consumer is left out, and so are threads and progress bars. The message sequence is modelled, not its timing.
- Archive decoding (tar, gzip, zip, 7z) is left out. An archive is the list of its entries and the paths it unpacks to.
- Archive.RawTopFolder: tar and 7z unpacking never fail on a payload of their own kind. A corrupt gzip or tar body (`src/tool/fs.rs:149`) and a failed write during unpacking (`src/tool/fs.rs:149`, `src/tool/fs.rs:182-188`) are not modelled, because only zip entries carry a readable-or-not flag. The same holds for `Archive.Decompress` and `BinInstaller.PlaceFromArchive`, which adds the extracted files without consulting locked paths or parent directories.
- TOML parsing is left out. A catalog file is missing, unreadable, malformed or parsed.
- Argument parsing with argh (`src/tool/args.rs`) is left out. The parsed arguments are inputs.
- The logger (`src/tool/logger.rs`) is left out.
- Self-update (`src/action/upgrade.rs`) is left out.
- The list display (`src/action/list.rs`) is left out.
- `AppDir::new` (`src/tool/fs.rs:24-58`) is left out. The home directory's sub-directories are assumed to exist.
- The retry loop that reads standard input in `src/tool/global_input.rs` is left out. A prompt answer is an input line, or a failure to read one.
- The Windows `mklink` and `fsutil` processes are left out. The hard-link query's output lines are inputs, and the lines are kept as path texts without being parsed into paths.
- `read_link` failures are left out. A link's target can always be read.
- Strings.Lower folds ASCII letters only, not Unicode case.
- The build process is left out. Its outcome (cannot start, exited with success, exited with failure) is an input, and so is the tree it leaves.
- `main.rs` and `bindle.rs` call `install`, `check_config` and the bindle commands without the `GlobalInput` those functions declare. The model passes the prompt answer as an input.
- The binary installer passes an alias to a source installer that declares no alias parameter. The model's source installer ignores it.
- The source installer returns `Ok` after a build that could not be started (`src/action/installer/rust_src_installer.rs:125-130`). The model keeps that behaviour.
- Bindles.UninstallBindle: uses the corrected `Uninstall.Uninstall` rather than the command as written, because the `remove_link(&p)` defect at `src/action/uninstall.rs:57` is recorded under "## Findings" and the rest of the model uses the corrected sweep.
- Config.CheckConfig: uses the intended answer test `Config.WantsUpdate`, not the byte slice at `src/action/config.rs:63`, which panics on a multi-byte first character. That panic is recorded under "## Findings" (`Config.AnswerAsWrittenPanics`), and the rest of the model uses the corrected test.
- FileSystem.RemoveDirAll: a failed removal changes nothing, whereas Rust's `remove_dir_all` may already have deleted part of the tree when it meets the locked entry. The error names the tree's root rather than the entry.
- `InstallError` has no variant for the decompress error that `src/action/installer/rust_bin_installer.rs:111` wraps, nor for `HttpError`. The model adds `ToolFs` and `Download` variants for them.
- Symbolic links are resolved one hop. Link targets are taken as written, in normalised form.
- FileSystem.RemoveLink only states that the entry itself is gone and no directory changed. What happens to the rest of the file system is stated by FileSystem.RemoveFile.

## Findings

| source | as written | input that shows it | evidently intended | confidence | as-written member | corrected member |
|---|---|---|---|---|---|---|
| src/action/uninstall.rs:57 | `remove_link(&p)` removes the link's target, a file inside the package directory about to be deleted, instead of the link itself | uninstalling `rg` with `bin/rg` a link to `packages/rg/<version>/rg` leaves `bin/rg` dangling, and reinstalling `rg` then fails to make the link | `remove_link(&file_path)` removes the `bin`/`alias` entry | not executed | Uninstall.AsWrittenLeavesDanglingLink | Uninstall.NoLinkIntoRemovedPackage |
| src/action/config.rs:63 | `answer[0..1]` slices the first byte, which panics when the first character takes more than one byte in UTF-8 | answering `été` at the "update the catalog?" prompt | test the first character of the answer | not executed | Config.AnswerAsWrittenPanics | Config.WantsUpdateIff |
