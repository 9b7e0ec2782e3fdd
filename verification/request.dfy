/** The per-package request and the settings shared by one install run. */
module Request {
  import opened Wrappers

  /** The version sentinel meaning "the newest regular release". */
  const Latest: string := "LATEST"

  datatype InstallRequest = InstallRequest(name: string, alias: Option<string>, version: Option<string>)

  /** The ABI token an asset name must carry, and whether to reinstall an installed version. */
  datatype InstallerContext = InstallerContext(rustAbi: string, force: bool)

  /**
   * The platform the tool runs on: the operating-system and architecture
   * names Rust reports (`std::env::consts::OS`, `ARCH`) and the executable
   * extension (`EXE_EXTENSION`, empty except on Windows).
   */
  datatype Platform = Platform(os: string, arch: string, exeExtension: string)
}
