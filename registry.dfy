/**
  The catalogue of installable MCP servers and the runtime check (src-tauri/src/registry.rs).
  Running `node --version` or `python --version` is outside the model: its outcome is a
  parameter.
*/
module Registry {
  import opened Wrappers
  import opened Errors
  import opened Strings
  import opened Config

  /** How a catalogue entry is installed. */
  datatype InstallMethod =
    | Npx(package: string)
    | Uvx(package: string)
    | GitClone(url: string, buildCommand: Option<string>)
    | Binary(url: string)

  /** One catalogue entry, with the server entry it adds to the configuration. */
  datatype RegistryServer = RegistryServer(
    id: string,
    name: string,
    description: string,
    icon: Option<string>,
    installMethod: InstallMethod,
    defaultConfig: McpServer,
    repoUrl: Option<string>,
    tags: seq<string>)

  datatype RuntimeStatus = RuntimeStatus(
    runtime: string,
    available: bool,
    version: Option<string>,
    path: Option<string>)

  const ServersRepo: Option<string> := Some("https://github.com/modelcontextprotocol/servers")

  const Filesystem: RegistryServer := RegistryServer(
    "filesystem", "Filesystem",
    "Read/write access to local filesystem. Allows Claude to browse, read, and write files in specified directories.",
    None,
    Npx("@modelcontextprotocol/server-filesystem"),
    McpServer("npx", ["-y", "@modelcontextprotocol/server-filesystem", "C:\\Users"], map[], None, true),
    ServersRepo,
    ["filesystem", "official", "core"])

  const Sqlite: RegistryServer := RegistryServer(
    "sqlite", "SQLite",
    "Query and manage SQLite databases. Enables Claude to run SQL queries and explore database schemas.",
    None,
    Uvx("mcp-server-sqlite"),
    McpServer("uvx", ["mcp-server-sqlite", "--db-path", "database.db"], map[], None, true),
    ServersRepo,
    ["database", "sql", "official"])

  const GitHub: RegistryServer := RegistryServer(
    "github", "GitHub",
    "Interact with GitHub repositories. Create issues, PRs, search code, and manage repositories.",
    None,
    Npx("@modelcontextprotocol/server-github"),
    McpServer("npx", ["-y", "@modelcontextprotocol/server-github"],
              map["GITHUB_PERSONAL_ACCESS_TOKEN" := ""], None, true),
    ServersRepo,
    ["git", "vcs", "official"])

  const Memory: RegistryServer := RegistryServer(
    "memory", "Memory",
    "Persistent memory and knowledge graph. Allows Claude to remember information across conversations.",
    None,
    Npx("@modelcontextprotocol/server-memory"),
    McpServer("npx", ["-y", "@modelcontextprotocol/server-memory"], map[], None, true),
    ServersRepo,
    ["memory", "knowledge", "official"])

  const BraveSearch: RegistryServer := RegistryServer(
    "brave-search", "Brave Search",
    "Web search powered by Brave. Search the web and get summarized results.",
    None,
    Npx("@modelcontextprotocol/server-brave-search"),
    McpServer("npx", ["-y", "@modelcontextprotocol/server-brave-search"],
              map["BRAVE_API_KEY" := ""], None, true),
    ServersRepo,
    ["search", "web", "official"])

  /** `get_builtin_registry`: the five built-in entries, in this order. */
  function BuiltinRegistry(): (r: seq<RegistryServer>)
    ensures |r| == 5
  {
    [Filesystem, Sqlite, GitHub, Memory, BraveSearch]
  }

  /** The ids of the built-in entries, in catalogue order. */
  const BuiltinIds: seq<string> := ["filesystem", "sqlite", "github", "memory", "brave-search"]

  lemma BuiltinIdsInOrder()
    ensures forall i :: 0 <= i < 5 ==> BuiltinRegistry()[i].id == BuiltinIds[i]
  {
  }

  /** No two built-in entries share an id, so a lookup by id is unambiguous. */
  lemma BuiltinIdsDistinct()
    ensures forall i, j :: 0 <= i < j < |BuiltinRegistry()| ==> BuiltinRegistry()[i].id != BuiltinRegistry()[j].id
  {
    BuiltinIdsInOrder();
  }

  /**
    A catalogue entry whose default configuration launches its own package: an npx package
    through `npx -y <package>`, a uvx package through `uvx <package>`; it is enabled, has no
    working directory, and every environment value it declares is left empty for the user.
  */
  predicate LaunchesOwnPackage(s: RegistryServer)
  {
    && s.defaultConfig.enabled && s.defaultConfig.cwd == None
    && (s.installMethod.Npx? ==>
          s.defaultConfig.command == "npx" && |s.defaultConfig.args| >= 2
          && s.defaultConfig.args[0] == "-y" && s.defaultConfig.args[1] == s.installMethod.package)
    && (s.installMethod.Uvx? ==>
          s.defaultConfig.command == "uvx" && |s.defaultConfig.args| >= 1
          && s.defaultConfig.args[0] == s.installMethod.package)
    && (forall k :: k in s.defaultConfig.env ==> s.defaultConfig.env[k] == "")
  }

  lemma BuiltinDefaultsMatchInstallMethod()
    ensures forall s :: s in BuiltinRegistry() ==> LaunchesOwnPackage(s)
  {
    assert LaunchesOwnPackage(Filesystem);
    assert LaunchesOwnPackage(Sqlite);
    assert LaunchesOwnPackage(GitHub);
    assert LaunchesOwnPackage(Memory);
    assert LaunchesOwnPackage(BraveSearch);
  }

  /** `find(|s| s.id == id)`: the first entry of the list with that id. */
  function FindById(servers: seq<RegistryServer>, id: string): (r: Option<RegistryServer>)
    ensures r.None? <==> forall i :: 0 <= i < |servers| ==> servers[i].id != id
    ensures r.Some? ==> exists i :: 0 <= i < |servers| && servers[i] == r.value
                                    && (forall j :: 0 <= j < i ==> servers[j].id != id)
    ensures r.Some? ==> r.value.id == id
  {
    if servers == [] then None
    else if servers[0].id == id then Some(servers[0])
    else
      var rest := FindById(servers[1..], id);
      if rest.Some? then
        var i :| 0 <= i < |servers[1..]| && servers[1..][i] == rest.value
                 && (forall j :: 0 <= j < i ==> servers[1..][j].id != id);
        assert servers[i + 1] == rest.value;
        rest
      else
        rest
  }

  /** `get_registry_server`: the built-in entry with that id, if there is one. */
  function GetRegistryServer(id: string): (r: Option<RegistryServer>)
    ensures r.Some? ==> r.value.id == id
    ensures r.Some? ==> exists i :: 0 <= i < 5 && BuiltinRegistry()[i] == r.value
  {
    FindById(BuiltinRegistry(), id)
  }

  /** A lookup succeeds exactly for the five built-in ids, and returns that entry. */
  lemma GetRegistryServerIds(id: string)
    ensures GetRegistryServer(id).Some? <==> id in BuiltinIds
    ensures forall i :: 0 <= i < 5 && BuiltinIds[i] == id ==> GetRegistryServer(id) == Some(BuiltinRegistry()[i])
  {
    var reg := BuiltinRegistry();
    BuiltinIdsInOrder();
    BuiltinIdsDistinct();
    var r := GetRegistryServer(id);
    if id in BuiltinIds {
      var i :| 0 <= i < 5 && BuiltinIds[i] == id;
      assert reg[i].id == id;
      var k :| 0 <= k < 5 && reg[k] == r.value;
      assert k == i;
    } else {
      assert forall i :: 0 <= i < 5 ==> reg[i].id != id;
    }
  }

  /** The executable probed for a runtime name, if the name is known. */
  function ProbeCommand(runtime: string): (r: Option<string>)
    ensures r == Some("node") <==> runtime in ["node", "npx"]
    ensures r == Some("python") <==> runtime in ["python", "python3", "uvx", "uv"]
    ensures r.None? <==> runtime !in ["node", "npx", "python", "python3", "uvx", "uv"]
  {
    if runtime == "node" || runtime == "npx" then Some("node")
    else if runtime == "python" || runtime == "python3" || runtime == "uvx" || runtime == "uv" then Some("python")
    else None
  }

  /** The outcome of running the probed executable with `--version`. */
  datatype ProbeOutcome =
    | ProbeSucceeded(stdout: string)   // it ran and exited successfully
    | ProbeFailed                      // it could not be run, or exited with a failure

  /**
    `check_runtime_availability`: an unknown runtime name is an error; otherwise the runtime
    is available exactly when the probe succeeded, with the trimmed output as its version.
    The path is never filled in.
  */
  function CheckRuntimeAvailability(runtime: string, probe: ProbeOutcome): (r: Result<RuntimeStatus>)
    ensures ProbeCommand(runtime).None? ==> r == Err(RuntimeNotFound("Unknown runtime: " + runtime))
    ensures ProbeCommand(runtime).Some? ==>
      && r.Ok? && r.value.runtime == runtime && r.value.path == None
      && (r.value.available <==> probe.ProbeSucceeded?)
      && (r.value.version.Some? <==> probe.ProbeSucceeded?)
      && (probe.ProbeSucceeded? ==> r.value.version.value == Trim(probe.stdout))
  {
    match ProbeCommand(runtime)
    case None => Err(RuntimeNotFound("Unknown runtime: " + runtime))
    case Some(_) =>
      match probe
      case ProbeSucceeded(stdout) => Ok(RuntimeStatus(runtime, true, Some(Trim(stdout)), None))
      case ProbeFailed => Ok(RuntimeStatus(runtime, false, None, None))
  }

  /** The reported version carries no white space at either end. */
  lemma RuntimeVersionTrimmed(runtime: string, stdout: string)
    requires ProbeCommand(runtime).Some?
    ensures var v := CheckRuntimeAvailability(runtime, ProbeSucceeded(stdout)).value.version.value;
            v == [] || (!IsWhitespace(v[0]) && !IsWhitespace(v[|v| - 1]))
  {
    var v := Trim(stdout);
    assert CheckRuntimeAvailability(runtime, ProbeSucceeded(stdout)) == Ok(RuntimeStatus(runtime, true, Some(v), None));
  }
}
