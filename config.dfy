/**
  The configuration schema of Claude Desktop's `claude_desktop_config.json` as the backend
  reads it, and the configuration file itself as a stored value. Path resolution, backups
  and the actual file system calls of config.rs are not part of this model: the file is
  one of five states, and a write either succeeds or fails with an error chosen by the
  environment.
*/
module Config {
  import opened Wrappers
  import opened Errors
  import Json

  /** One server entry: how to launch it, and whether it is enabled (a Synaptic extension). */
  datatype McpServer = McpServer(
    command: string,
    args: seq<string>,
    env: map<string, string>,
    cwd: Option<string>,
    enabled: bool)

  /** The whole file: the servers by name, plus every other top-level member, kept as is. */
  datatype McpConfig = McpConfig(
    mcpServers: map<string, McpServer>,
    extra: map<string, Json.Json>)

  /** `McpConfig::default()`: no servers and no other members. */
  const EmptyConfig := McpConfig(map[], map[])

  /**
    A server entry as it is deserialised when only `command` is given: `args` and `env`
    default to empty, `cwd` to none and `enabled` to true.
  */
  function ServerWithDefaults(command: string): (s: McpServer)
    ensures s.command == command && s.enabled
    ensures s.args == [] && s.env == map[] && s.cwd == None
  {
    McpServer(command, [], map[], None, true)
  }

  /** The configuration file on disk, as far as the backend can observe it. */
  datatype FileState =
    | Unlocatable(reason: string)  // the configuration directory cannot be determined
    | Absent                       // the file does not exist
    | Unreadable(reason: string)   // reading it fails
    | Unparsable(reason: string)   // it is not a valid configuration
    | Holds(config: McpConfig)     // it holds this configuration

  /**
    `read_config_file`: a path that cannot be resolved is a `ConfigNotFound`; a missing file
    reads as the empty configuration; a read failure is a `ConfigReadError`, a parse failure
    a `ConfigParseError`.
  */
  function ReadConfigFile(f: FileState): (r: Result<McpConfig>)
    ensures r.Ok? <==> f.Absent? || f.Holds?
    ensures f.Unlocatable? ==> r == Err(ConfigNotFound(f.reason))
    ensures f.Absent? ==> r == Ok(EmptyConfig)
    ensures f.Holds? ==> r == Ok(f.config)
    ensures f.Unreadable? ==> r.Err? && r.error.ConfigReadError?
    ensures f.Unparsable? ==> r.Err? && r.error.ConfigParseError?
  {
    match f
    case Unlocatable(reason) => Err(ConfigNotFound(reason))
    case Absent => Ok(EmptyConfig)
    case Unreadable(reason) => Err(ConfigReadError(reason))
    case Unparsable(reason) => Err(ConfigParseError(reason))
    case Holds(config) => Ok(config)
  }

  /**
    The errors `write_config_file` can return once the configuration path is resolved: the
    backup taken before writing fails (which includes resolving the backup directory), or
    creating the directory, serialising or writing fails.
  */
  predicate IsWriteError(e: SynapticError)
  {
    e.ConfigNotFound? || e.BackupError? || e.ConfigWriteError?
  }
}
