/**
 * The `uninstall` command: the named packages whose directory exists are
 * removed, after the `bin` and `alias` directories have been swept of the
 * links that point into them.
 *
 * For every symbolic-link entry whose target lies in a removed package the
 * program calls `remove_link` on the TARGET, so the entry itself is left
 * behind, dangling. `Rule` selects between that behaviour and the evidently
 * intended one, which removes the entry; `Uninstall` is the corrected
 * command and `UninstallAsWritten` the command as the program has it.
 */
module Uninstall {
  import opened Wrappers
  import opened Paths
  import opened FileSystem
  import opened Trace
  import opened Helper

  /** Which path a claimed entry's removal is given. */
  datatype Rule = AsWritten | Corrected

  /** The path handed to `remove_link` for the entry `entry` whose target is `target`. */
  function Victim(rule: Rule, entry: Path, target: Path): (v: Path)
    ensures rule.AsWritten? ==> v == target
    ensures rule.Corrected? ==> v == entry
  {
    if rule.AsWritten? then target else entry
  }

  /** The command changes nothing but removals: no path appears, no link is redirected. */
  predicate Shrinks(before: Fs, after: Fs) {
    && after.dirs <= before.dirs
    && after.files <= before.files
    && after.links.Keys <= before.links.Keys
    && (forall q | q in after.links :: q in before.links && after.links[q] == before.links[q])
    && after.locked == before.locked
  }

  /** Every effect of a sweep is the removal of a link or a message. */
  predicate Unlinking(t: seq<Effect>) {
    forall e | e in t :: e.RemovedFile? || e.Said?
  }

  /** Every effect of the final phase is the removal of a tree or a message. */
  predicate Deleting(t: seq<Effect>) {
    forall e | e in t :: e.RemovedTree? || e.Said?
  }

  /** Nothing is left at or below `t`. */
  predicate Cleared(fs: Fs, t: Path) {
    && (forall q | q in fs.dirs :: !StartsWith(q, t))
    && (forall q | q in fs.files :: !StartsWith(q, t))
    && (forall q | q in fs.links :: !StartsWith(q, t))
  }

  /** A cleared tree stays cleared, and so does every tree inside it. */
  lemma ClearedBelow(a: Fs, b: Fs, t: Path, u: Path)
    requires Shrinks(a, b) && Cleared(a, t) && StartsWith(u, t)
    ensures Cleared(b, u)
  {
    forall q | StartsWith(q, u) ensures StartsWith(q, t) {
      StartsWithTrans(q, u, t);
    }
  }

  /** The package directories to remove: `packages/<name>` for each name whose directory exists, in order. */
  function Targets(app: AppDir, names: seq<string>, fs: Fs): (r: seq<Path>)
    ensures |r| <= |names|
    ensures forall t | t in r :: IsDir(fs, t) && exists n | n in names :: t == Child(app.Packages(), n)
    ensures forall n | n in names && IsDir(fs, Child(app.Packages(), n)) :: Child(app.Packages(), n) in r
  {
    if |names| == 0 then []
    else
      var p := Child(app.Packages(), names[0]);
      var rest := Targets(app, names[1..], fs);
      assert forall n | n in names[1..] :: n in names;
      assert forall n | n in names && n != names[0] :: n in names[1..];
      (if IsDir(fs, p) then [p] else []) + rest
  }

  /**
   * A link target is claimed when it starts with the packages directory and
   * with one of the targeted package directories (component-wise).
   */
  function Claimed(targets: seq<Path>, packages: Path, target: Path): (b: bool)
    ensures b <==> StartsWith(target, packages) && exists i :: 0 <= i < |targets| && StartsWith(target, targets[i])
  {
    StartsWith(target, packages) && exists t | t in targets :: StartsWith(target, t)
  }

  /** One `remove_link`: the path is removed, or the failure is logged. */
  function Unlink(fs: Fs, p: Path): (r: Done)
    ensures RemoveLink(fs, p).Ok? ==> r == Done(RemoveLink(fs, p).value, [RemovedFile(p)])
    ensures RemoveLink(fs, p).Err? ==> r == Done(fs, [Said(UnlinkFailed(p))])
  {
    match RemoveLink(fs, p)
    case Ok(fs') => Done(fs', [RemovedFile(p)])
    case Err(_) => Done(fs, [Said(UnlinkFailed(p))])
  }

  /**
   * The inner loop over the targeted package directories: `victim` is
   * unlinked once for every one of them that `target` starts with.
   */
  function Unlinks(fs: Fs, targets: seq<Path>, target: Path, victim: Path): (r: Done)
    ensures Shrinks(fs, r.fs) && Unlinking(r.trace)
    ensures forall q | q in fs.links && q != victim :: q in r.fs.links
    ensures forall q | q in fs.files && q != victim :: q in r.fs.files
    ensures r.fs.dirs == fs.dirs
    ensures (exists t | t in targets :: StartsWith(target, t)) && victim in fs.links && victim !in fs.locked ==>
      victim !in r.fs.links
    ensures (forall t | t in targets :: !StartsWith(target, t)) ==> r == Done(fs, [])
    decreases |targets|
  {
    if |targets| == 0 then Done(fs, [])
    else
      var first := if StartsWith(target, targets[0]) then Unlink(fs, victim) else Done(fs, []);
      var rest := Unlinks(first.fs, targets[1..], target, victim);
      assert forall t | t in targets[1..] :: t in targets;
      assert forall t | t in targets && t != targets[0] :: t in targets[1..];
      assert forall e | e in first.trace + rest.trace :: e in first.trace || e in rest.trace;
      Done(rest.fs, first.trace + rest.trace)
  }

  /**
   * One directory entry: only a symbolic link is considered, and only when
   * its target is claimed; then the rule's victim is unlinked.
   */
  function SweepEntry(rule: Rule, fs: Fs, entry: Path, packages: Path, targets: seq<Path>): (r: Done)
    ensures Shrinks(fs, r.fs) && Unlinking(r.trace) && r.fs.dirs == fs.dirs
    ensures entry !in fs.links || !Claimed(targets, packages, fs.links[entry]) ==> r == Done(fs, [])
    ensures entry in fs.links && Claimed(targets, packages, fs.links[entry]) ==>
      var victim := Victim(rule, entry, fs.links[entry]);
      (forall q | q in fs.links && q != victim :: q in r.fs.links)
      && (victim in fs.links && victim !in fs.locked ==> victim !in r.fs.links)
  {
    if entry !in fs.links then Done(fs, [])
    else
      var target := fs.links[entry];
      if !StartsWith(target, packages) then Done(fs, [])
      else Unlinks(fs, targets, target, Victim(rule, entry, target))
  }

  /**
   * The loop over one directory's entries (`remove_linked_files`): every
   * entry is handled whatever happened to the one before; a listing error is
   * logged and ends the sweep.
   */
  function Sweep(rule: Rule, fs: Fs, entries: seq<DirEntry>, packages: Path, targets: seq<Path>): (r: Done)
    ensures Shrinks(fs, r.fs) && Unlinking(r.trace) && r.fs.dirs == fs.dirs
    ensures rule.Corrected? ==> forall i | 0 <= i < Listed(entries) ::
      var q := entries[i].path;
      q in fs.links && q !in fs.locked && Claimed(targets, packages, fs.links[q]) ==> q !in r.fs.links
    ensures rule.AsWritten? ==> forall q | q in fs.links && !StartsWith(q, packages) :: q in r.fs.links
    decreases |entries|
  {
    if |entries| == 0 then Done(fs, [])
    else match entries[0]
      case ListError(_) => Done(fs, [Said(ListFailed)])
      case Entry(p) =>
        var first := SweepEntry(rule, fs, p, packages, targets);
        var rest := Sweep(rule, first.fs, entries[1..], packages, targets);
        assert forall i | 1 <= i < Listed(entries) :: entries[1..][i - 1] == entries[i];
        assert forall e | e in first.trace + rest.trace :: e in first.trace || e in rest.trace;
        Done(rest.fs, first.trace + rest.trace)
  }

  /** `read_dir` then the sweep: a directory that cannot be listed is logged and left alone. */
  function SweepDir(rule: Rule, fs: Fs, listing: Result<seq<DirEntry>, string>, packages: Path, targets: seq<Path>): (r: Done)
    ensures Shrinks(fs, r.fs) && Unlinking(r.trace) && r.fs.dirs == fs.dirs
    ensures listing.Err? ==> r == Done(fs, [Said(ListFailed)])
    ensures listing.Ok? ==> r == Sweep(rule, fs, listing.value, packages, targets)
  {
    match listing
    case Err(_) => Done(fs, [Said(ListFailed)])
    case Ok(entries) => Sweep(rule, fs, entries, packages, targets)
  }

  /** One `remove_dir_all`: the tree is removed, or the failure is logged. */
  function RemoveTree(fs: Fs, t: Path): (r: Done)
    ensures Shrinks(fs, r.fs) && Deleting(r.trace)
    ensures r.trace == [RemovedTree(t)] || r.trace == [Said(RemoveDirFailed(t))]
    ensures r.trace == [RemovedTree(t)] ==> t !in r.fs.links && (t !in fs.links ==> t !in r.fs.dirs)
    ensures r.trace == [RemovedTree(t)] <==>
      (t in fs.links && t !in fs.locked) || (t !in fs.links && t in fs.dirs && Removable(fs, t))
    ensures forall q | q in fs.links && !StartsWith(q, t) :: q in r.fs.links
    ensures r.trace == [RemovedTree(t)] && t !in fs.links ==> Cleared(r.fs, t)
    ensures forall q | q in fs.dirs && q !in r.fs.dirs :: StartsWith(q, t) && t !in fs.links
  {
    assert StartsWith(t, t);
    match RemoveDirAll(fs, t)
    case Ok(fs') => Done(fs', [RemovedTree(t)])
    case Err(_) => Done(fs, [Said(RemoveDirFailed(t))])
  }

  /**
   * The final loop: `remove_dir_all` on every targeted directory, each one
   * attempted whatever happened to the others.
   */
  function RemovePackages(fs: Fs, targets: seq<Path>): (r: Done)
    ensures Shrinks(fs, r.fs) && Deleting(r.trace)
    ensures |r.trace| == |targets|
    ensures forall i | 0 <= i < |targets| ::
      r.trace[i] == RemovedTree(targets[i]) || r.trace[i] == Said(RemoveDirFailed(targets[i]))
    ensures forall i | 0 <= i < |targets| && r.trace[i] == RemovedTree(targets[i]) ::
      targets[i] !in r.fs.links && (targets[i] !in fs.links ==> targets[i] !in r.fs.dirs)
    ensures forall q | q in fs.links && (forall t | t in targets :: !StartsWith(q, t)) :: q in r.fs.links
    decreases |targets|
  {
    if |targets| == 0 then Done(fs, [])
    else
      var t := targets[0];
      var first := RemoveTree(fs, t);
      var rest := RemovePackages(first.fs, targets[1..]);
      var trace := first.trace + rest.trace;
      assert first.trace == [trace[0]];
      assert forall u | u in targets[1..] :: u in targets;
      assert forall e | e in trace :: e in first.trace || e in rest.trace;
      assert forall i | 1 <= i < |targets| :: targets[i] == targets[1..][i - 1];
      assert forall i | 1 <= i < |targets| :: trace[i] == rest.trace[i - 1];
      assert forall q | q in fs.links && (forall u | u in targets :: !StartsWith(q, u)) ::
        q in first.fs.links && (forall u | u in targets[1..] :: !StartsWith(q, u));
      Done(rest.fs, trace)
  }

  /** Every targeted directory that is a real directory with nothing locked in it is cleared, whatever the others do. */
  lemma {:induction false} RemovePackagesClears(fs: Fs, targets: seq<Path>)
    ensures forall t | t in targets && t in fs.dirs && t !in fs.links && Removable(fs, t) ::
      Cleared(RemovePackages(fs, targets).fs, t)
    decreases |targets|
  {
    if |targets| > 0 {
      var t := targets[0];
      var first := RemoveTree(fs, t);
      var rest := RemovePackages(first.fs, targets[1..]);
      assert RemovePackages(fs, targets).fs == rest.fs;
      RemovePackagesClears(first.fs, targets[1..]);
      forall u | u in targets && u in fs.dirs && u !in fs.links && Removable(fs, u) ensures Cleared(rest.fs, u) {
        if u == t {
          ClearedBelow(first.fs, rest.fs, t, t);
        } else if u !in first.fs.dirs {
          ClearedBelow(first.fs, rest.fs, t, u);
        } else {
          assert u in targets[1..];
        }
      }
    }
  }

  /** `uninstall` under a rule: select, sweep `bin`, sweep `alias`, then delete. */
  function UninstallWith(rule: Rule, app: AppDir, names: seq<string>, fs: Fs,
                         binListing: Result<seq<DirEntry>, string>, aliasListing: Result<seq<DirEntry>, string>): (r: Done)
    ensures Shrinks(fs, r.fs)
    ensures forall i, j | 0 <= i < j < |r.trace| && r.trace[i].RemovedTree? :: !r.trace[j].RemovedFile?
  {
    var targets := Targets(app, names, fs);
    var b := SweepDir(rule, fs, binListing, app.Packages(), targets);
    var a := SweepDir(rule, b.fs, aliasListing, app.Packages(), targets);
    var d := RemovePackages(a.fs, targets);
    PhasesInOrder(b.trace + a.trace, d.trace);
    Done(d.fs, b.trace + a.trace + d.trace)
  }

  /** Removals of links followed by removals of trees: no link removal follows a tree removal. */
  lemma PhasesInOrder(swept: seq<Effect>, deleted: seq<Effect>)
    requires Unlinking(swept) && Deleting(deleted)
    ensures var t := swept + deleted;
      forall i, j | 0 <= i < j < |t| && t[i].RemovedTree? :: !t[j].RemovedFile?
  {
    var t := swept + deleted;
    assert forall k | 0 <= k < |swept| :: t[k] == swept[k] && t[k] in swept;
    assert forall k | |swept| <= k < |t| :: t[k] == deleted[k - |swept|] && t[k] in deleted;
  }

  /** The command as the program runs it: the link targets are unlinked. */
  function UninstallAsWritten(app: AppDir, names: seq<string>, fs: Fs,
                              binListing: Result<seq<DirEntry>, string>, aliasListing: Result<seq<DirEntry>, string>): (r: Done)
    ensures Shrinks(fs, r.fs)
  {
    UninstallWith(AsWritten, app, names, fs, binListing, aliasListing)
  }

  /** The command as evidently intended: the claimed entries themselves are unlinked. */
  function Uninstall(app: AppDir, names: seq<string>, fs: Fs,
                     binListing: Result<seq<DirEntry>, string>, aliasListing: Result<seq<DirEntry>, string>): (r: Done)
    ensures Shrinks(fs, r.fs)
    ensures forall i, j | 0 <= i < j < |r.trace| && r.trace[i].RemovedTree? :: !r.trace[j].RemovedFile?
  {
    UninstallWith(Corrected, app, names, fs, binListing, aliasListing)
  }

  /** `packages/foo` claims nothing inside `packages/foobar`: ownership is decided on whole components. */
  lemma ClaimIsComponentWise(packages: Path, owner: string, other: string, rest: Path)
    requires owner != other
    ensures !Claimed([packages + [Normal(owner)]], packages, packages + [Normal(other)] + rest)
  {
    var target := packages + [Normal(other)] + rest;
    assert target[|packages|] == Normal(other);
    assert forall t | t in [packages + [Normal(owner)]] :: t[|packages|] == Normal(owner);
  }

  /** A listing reaches every link directly inside `dir` before any listing error. */
  predicate Covers(entries: seq<DirEntry>, fs: Fs, dir: Path) {
    forall q | q in fs.links && Parent(q) == Some(dir) :: exists i | 0 <= i < Listed(entries) :: entries[i].path == q
  }

  /** No entry of `bin` or `alias` is locked. */
  predicate EntriesUnlocked(app: AppDir, fs: Fs) {
    forall q | q in fs.locked :: Parent(q) != Some(app.Bin()) && Parent(q) != Some(app.Alias())
  }

  /**
   * Every named package whose directory is a real directory with nothing
   * locked in it is gone afterwards, files, directories and links below it
   * included.
   */
  lemma UninstallClearsPackages(rule: Rule, app: AppDir, names: seq<string>, fs: Fs,
                                binListing: Result<seq<DirEntry>, string>, aliasListing: Result<seq<DirEntry>, string>)
    ensures var r := UninstallWith(rule, app, names, fs, binListing, aliasListing);
      forall n | n in names :: var t := Child(app.Packages(), n);
        t in fs.dirs && t !in fs.links && Removable(fs, t) ==> Cleared(r.fs, t)
  {
    var targets := Targets(app, names, fs);
    var b := SweepDir(rule, fs, binListing, app.Packages(), targets);
    var a := SweepDir(rule, b.fs, aliasListing, app.Packages(), targets);
    RemovePackagesClears(a.fs, targets);
    assert forall n | n in names && Child(app.Packages(), n) in fs.dirs && Child(app.Packages(), n) !in fs.links ::
      Child(app.Packages(), n) in targets;
  }

  /**
   * The corrected command: with both directories listed completely and none
   * of their entries locked, no link in `bin` or `alias` is left pointing
   * into a removed package.
   */
  lemma NoLinkIntoRemovedPackage(app: AppDir, names: seq<string>, fs: Fs, binEntries: seq<DirEntry>, aliasEntries: seq<DirEntry>)
    requires Covers(binEntries, fs, app.Bin()) && Covers(aliasEntries, fs, app.Alias())
    requires EntriesUnlocked(app, fs)
    ensures var r := Uninstall(app, names, fs, Ok(binEntries), Ok(aliasEntries));
      forall q | q in r.fs.links && (Parent(q) == Some(app.Bin()) || Parent(q) == Some(app.Alias())) ::
        !Claimed(Targets(app, names, fs), app.Packages(), r.fs.links[q])
  {
    var targets := Targets(app, names, fs);
    var b := SweepDir(Corrected, fs, Ok(binEntries), app.Packages(), targets);
    var a := SweepDir(Corrected, b.fs, Ok(aliasEntries), app.Packages(), targets);
    var d := RemovePackages(a.fs, targets);
    assert Uninstall(app, names, fs, Ok(binEntries), Ok(aliasEntries)).fs == d.fs;
    forall q | q in d.fs.links && (Parent(q) == Some(app.Bin()) || Parent(q) == Some(app.Alias()))
      ensures !Claimed(targets, app.Packages(), d.fs.links[q])
    {
      if Parent(q) == Some(app.Bin()) {
        var i :| 0 <= i < Listed(binEntries) && binEntries[i].path == q;
      } else {
        var i :| 0 <= i < Listed(aliasEntries) && aliasEntries[i].path == q;
      }
    }
  }

  /**
   * The command as written, with plain package names: no link outside the
   * packages tree is ever removed or redirected, so the `bin` and `alias`
   * entries of an uninstalled package outlive it.
   */
  lemma AsWrittenKeepsOutsideLinks(app: AppDir, names: seq<string>, fs: Fs,
                                   binListing: Result<seq<DirEntry>, string>, aliasListing: Result<seq<DirEntry>, string>)
    requires forall n | n in names :: SimpleName(n)
    ensures var r := UninstallAsWritten(app, names, fs, binListing, aliasListing);
      forall q | q in fs.links && !StartsWith(q, app.Packages()) :: q in r.fs.links && r.fs.links[q] == fs.links[q]
  {
    var targets := Targets(app, names, fs);
    var b := SweepDir(AsWritten, fs, binListing, app.Packages(), targets);
    var a := SweepDir(AsWritten, b.fs, aliasListing, app.Packages(), targets);
    var d := RemovePackages(a.fs, targets);
    assert UninstallAsWritten(app, names, fs, binListing, aliasListing).fs == d.fs;
    forall t | t in targets ensures StartsWith(t, app.Packages()) {
      var n :| n in names && t == Child(app.Packages(), n);
      ChildSimple(app.Packages(), n);
    }
    forall q, t | !StartsWith(q, app.Packages()) && t in targets ensures !StartsWith(q, t) {
      if StartsWith(q, t) { StartsWithTrans(q, t, app.Packages()); }
    }
  }

  /**
   * The discrepancy: a link outside the packages tree whose target lies in
   * a removed package survives the command as written, dangling, and a
   * later install cannot make a link at that place again.
   */
  lemma AsWrittenLeavesDanglingLink(app: AppDir, names: seq<string>, fs: Fs,
                                    binListing: Result<seq<DirEntry>, string>, aliasListing: Result<seq<DirEntry>, string>,
                                    name: string, link: Path)
    requires forall n | n in names :: SimpleName(n)
    requires name in names
    requires var t := Child(app.Packages(), name); t in fs.dirs && t !in fs.links && Removable(fs, t)
    requires link in fs.links && !StartsWith(link, app.Packages())
    requires StartsWith(fs.links[link], Child(app.Packages(), name))
    ensures var r := UninstallAsWritten(app, names, fs, binListing, aliasListing);
      && link in r.fs.links && r.fs.links[link] == fs.links[link]
      && !Exists(r.fs, link)
      && MakeLink(r.fs, link, fs.links[link]).Err?
  {
    var r := UninstallAsWritten(app, names, fs, binListing, aliasListing);
    AsWrittenKeepsOutsideLinks(app, names, fs, binListing, aliasListing);
    UninstallClearsPackages(AsWritten, app, names, fs, binListing, aliasListing);
    assert Cleared(r.fs, Child(app.Packages(), name));
  }
}
