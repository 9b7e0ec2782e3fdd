/**
 * The command line: how the `install` and `update` commands turn their
 * arguments into install requests and the installer's settings.
 */
module Cli {
  import opened Wrappers
  import Seqs
  import Request

  /** The arguments `install` and `update` share (`--version`, `--alias`, `--rust-abi`, `--force`, names). */
  datatype InstallArgs = InstallArgs(packages: seq<string>, version: Option<string>, alias: Option<string>,
                                     rustAbi: Option<string>, force: bool)

  /** The ABI token for the platform the program was built for: `msvc` on Windows, `gnu` elsewhere. */
  function DefaultAbi(os: string): (abi: string)
    ensures abi in {"msvc", "gnu"}
    ensures abi == "msvc" <==> os == "windows"
  {
    if os == "windows" then "msvc" else "gnu"
  }

  /** The installer's settings: the given ABI or the platform's default, and the force switch. */
  function Context(args: InstallArgs, os: string): (ctx: Request.InstallerContext)
    ensures args.rustAbi.Some? ==> ctx.rustAbi == args.rustAbi.value
    ensures args.rustAbi.None? ==> ctx.rustAbi == DefaultAbi(os)
    ensures ctx.force == args.force
  {
    Request.InstallerContext(if args.rustAbi.Some? then args.rustAbi.value else DefaultAbi(os), args.force)
  }

  /** The request for a name given among several: any version, no alias. */
  function Plain(name: string): Request.InstallRequest {
    Request.InstallRequest(name, None, None)
  }

  /**
   * The requests: a single name carries the given version and alias; any
   * other number of names, none included, gives one plain request per name.
   */
  function BuildRequests(args: InstallArgs): (r: seq<Request.InstallRequest>)
    ensures |r| == |args.packages|
    ensures forall i | 0 <= i < |r| :: r[i].name == args.packages[i]
    ensures |args.packages| == 1 ==> r[0].version == args.version && r[0].alias == args.alias
    ensures |args.packages| != 1 ==> forall i | 0 <= i < |r| :: r[i].version.None? && r[i].alias.None?
  {
    if |args.packages| == 1 then [Request.InstallRequest(args.packages[0], args.alias, args.version)]
    else Seqs.Map(Plain, args.packages)
  }

  /** `--version` and `--alias` reach a request only when exactly one name is given. */
  lemma OptionsNeedOneName(args: InstallArgs)
    requires args.version.Some? || args.alias.Some?
    ensures (exists q | q in BuildRequests(args) :: q.version == args.version && q.alias == args.alias)
        <==> |args.packages| == 1
  {
    var r := BuildRequests(args);
    if |args.packages| == 1 {
      assert r[0] in r;
    }
  }

  /** The run the `install` command starts: its requests and settings. */
  function InstallCommand(args: InstallArgs, os: string): (run: (seq<Request.InstallRequest>, Request.InstallerContext))
    ensures |run.0| == |args.packages| && forall i | 0 <= i < |run.0| :: run.0[i].name == args.packages[i]
    ensures |args.packages| == 1 ==> run.0[0].version == args.version && run.0[0].alias == args.alias
    ensures |args.packages| != 1 ==> forall i | 0 <= i < |run.0| :: run.0[i].version.None? && run.0[i].alias.None?
    ensures run.1.force == args.force
    ensures args.rustAbi.Some? ==> run.1.rustAbi == args.rustAbi.value
    ensures args.rustAbi.None? ==> (run.1.rustAbi == "msvc" <==> os == "windows") && run.1.rustAbi in {"msvc", "gnu"}
  {
    (BuildRequests(args), Context(args, os))
  }

  /** The run the `update` command starts, built the same way as for `install`. */
  function UpdateCommand(args: InstallArgs, os: string): (run: (seq<Request.InstallRequest>, Request.InstallerContext))
    ensures run == InstallCommand(args, os)
  {
    (BuildRequests(args), Context(args, os))
  }
}
