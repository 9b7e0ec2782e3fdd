/**
 * What a command does, in order: the file-system actions it attempts and
 * the messages it shows. Commands return unit in the program, so the trace
 * is how their outcome is observed.
 */
module Trace {
  import opened Wrappers
  import opened Paths
  import opened FileSystem
  import Release

  datatype Note =
    | Begin(name: string)
    | MetadataUnavailable
    | UnknownPackage(name: string)
    | TmpUnavailable
    | UnsupportedLanguage(language: string)
    | AssetsUnavailable(error: Release.InstallError)
    | AlreadyInstalled(name: string, version: string)
    | Installed(name: string, version: string)
    | InstallFailed(name: string, error: Release.InstallError)
    | SourcePrompt
    | InputUnavailable
    | SourceInstallFailed(name: string, error: Release.InstallError)
    | NothingToInstall
    | BuildUnavailable
    | BuildFailed(name: string)
    | UnknownBindle(name: string)
    | MissingPackages(names: seq<string>)
    | Match(name: string)
    | ConfigPrompt
    | ConfigUpdated
    | ConfigFailed
    | ListFailed
    | UnlinkFailed(path: Path)
    | RemoveDirFailed(path: Path)

  datatype Effect =
    | Fetched(url: string, to: Path)
    | RemovedFile(path: Path)
    | RemovedTree(path: Path)
    | MadeDir(path: Path)
    | Extracted(archive: Path, into: Path)
    | Compiled(dir: Path)
    | Copied(src: Path, dst: Path)
    | Linked(link: Path, target: Path)
    | Renamed(from: Path, to: Path)
    | Said(note: Note)

  /** A step of an installer: the file system after it, what it did, and whether it failed. */
  datatype Run = Run(fs: Fs, trace: seq<Effect>, result: Result<(), Release.InstallError>)

  /** A command that returns nothing: the file system after it and what it did. */
  datatype Done = Done(fs: Fs, trace: seq<Effect>)

  /** Nothing happened and nothing failed. */
  function Skip(fs: Fs): Run {
    Run(fs, [], Ok(()))
  }

  /**
   * `a` followed by `b`, where `b` was computed from `a.fs`; as with `?`, a
   * failure of `a` ends the run.
   */
  function Then(a: Run, b: Run): (r: Run)
    ensures a.result.Err? ==> r == a
    ensures a.result.Ok? ==> r == Run(b.fs, a.trace + b.trace, b.result)
  {
    if a.result.Err? then a else Run(b.fs, a.trace + b.trace, b.result)
  }

  /** No download was started. */
  predicate NoFetch(t: seq<Effect>) {
    forall e | e in t :: !e.Fetched?
  }

  /** A build was started. */
  predicate Compiles(t: seq<Effect>) {
    exists e | e in t :: e.Compiled?
  }

  /** No link was made. */
  predicate NoLink(t: seq<Effect>) {
    forall e | e in t :: !e.Linked?
  }

  /** What the two halves of `Then` did, seen in the whole. */
  lemma ThenTrace(a: Run, b: Run)
    ensures NoLink(a.trace) && NoLink(b.trace) ==> NoLink(Then(a, b).trace)
    ensures NoFetch(a.trace) && NoFetch(b.trace) ==> NoFetch(Then(a, b).trace)
    ensures !Compiles(a.trace) ==> (Compiles(Then(a, b).trace) <==> a.result.Ok? && Compiles(b.trace))
  {
    var r := Then(a, b);
    if a.result.Ok? {
      assert forall i :: 0 <= i < |b.trace| ==> r.trace[|a.trace| + i] == b.trace[i];
      assert forall i :: |a.trace| <= i < |r.trace| ==> r.trace[i] == b.trace[i - |a.trace|];
    }
  }

  /** A message said before a trace neither starts nor hides a build. */
  lemma CompilesAfterSaid(said: Effect, t: seq<Effect>)
    requires said.Said?
    ensures Compiles([said] + t) <==> Compiles(t)
  {
    if Compiles([said] + t) {
      var e :| e in [said] + t && e.Compiled?;
      assert e != said;
    }
    if Compiles(t) {
      var e :| e in t && e.Compiled?;
      assert e in [said] + t;
    }
  }
}
