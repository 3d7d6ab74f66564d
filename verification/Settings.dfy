/** The optional-value wrapper and the configuration object that
    consolidateFiles destructures from its third argument. */
module Settings {

  datatype Option<T> = None | Some(value: T)

  /** The three options. `includeExtensions` is None for `null`/`undefined`:
      both are falsy, so the extension test is skipped. */
  datatype Config = Config(
    excludeDirs: seq<string>,
    excludeFiles: seq<string>,
    includeExtensions: Option<seq<string>>)

  /** Directory names excluded when the caller gives none. */
  const DefaultExcludeDirs: seq<string> :=
    ["node_modules", ".git", "dist", "build", ".angular", ".vscode"]

  /** File patterns the command line passes when the user gives none. */
  const CliExcludeFiles: seq<string> := ["*.log", ".env", "*.tmp"]

  /** The configuration of a call that leaves every option unset. */
  const DefaultConfig: Config := Config(DefaultExcludeDirs, [], None)

  /** The configuration the command line builds from its own defaults. */
  const CliConfig: Config := Config(DefaultExcludeDirs, CliExcludeFiles, None)
}
