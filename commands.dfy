/**
  The command handlers with logic of their own (src-tauri/src/commands.rs): pagination of
  the captured messages, the inspector session map, installing a catalogue entry, the
  configuration lookup in front of a spawn, and the cache invalidation after a restore.
*/
module Commands {
  import opened Wrappers
  import opened Errors
  import opened Config
  import opened Inspector
  import opened State
  import opened Registry
  import opened Processes

  // ---------------------------------------------------------------------------
  // get_inspector_messages: skip / take
  // ---------------------------------------------------------------------------

  /** The page size when the caller gives none. */
  const DefaultLimit: nat := 100

  /** `Iterator::skip(n)`: drop the first `n` items, or all of them when there are fewer. */
  function Skip<T>(s: seq<T>, n: nat): (r: seq<T>)
    ensures |r| == if n <= |s| then |s| - n else 0
    decreases n
  {
    if n == 0 || s == [] then s else Skip(s[1..], n - 1)
  }

  /** `Iterator::take(n)`: keep the first `n` items, or all of them when there are fewer. */
  function Take<T>(s: seq<T>, n: nat): (r: seq<T>)
    ensures |r| == if n <= |s| then n else |s|
    decreases n
  {
    if n == 0 || s == [] then [] else [s[0]] + Take(s[1..], n - 1)
  }

  function Min(a: nat, b: nat): nat
  {
    if a <= b then a else b
  }

  /** `skip(offset).take(limit)`, with offset 0 and limit 100 by default. */
  function Paginate<T>(msgs: seq<T>, limit: Option<nat>, offset: Option<nat>): (page: seq<T>)
    ensures |page| <= |msgs|
    ensures |page| <= if limit.Some? then limit.value else DefaultLimit
    ensures offset.Some? && offset.value >= |msgs| ==> page == []
  {
    var off := if offset.Some? then offset.value else 0;
    var lim := if limit.Some? then limit.value else DefaultLimit;
    Take(Skip(msgs, off), lim)
  }

  lemma {:induction false} SkipIsSuffix<T>(s: seq<T>, n: nat)
    ensures Skip(s, n) == s[Min(n, |s|)..]
    decreases n
  {
    if n != 0 && s != [] {
      SkipIsSuffix(s[1..], n - 1);
      assert s[1..][Min(n - 1, |s| - 1)..] == s[Min(n, |s|)..];
    }
  }

  lemma {:induction false} TakeIsPrefix<T>(s: seq<T>, n: nat)
    ensures Take(s, n) == s[..Min(n, |s|)]
    decreases n
  {
    if n != 0 && s != [] {
      TakeIsPrefix(s[1..], n - 1);
      assert [s[0]] + s[1..][..Min(n - 1, |s| - 1)] == s[..Min(n, |s|)];
    }
  }

  /** A page is the slice `msgs[off .. min(off + lim, |msgs|)]`. */
  lemma PaginateIsSlice<T>(msgs: seq<T>, limit: Option<nat>, offset: Option<nat>)
    ensures var off := if offset.Some? then offset.value else 0;
            var lim := if limit.Some? then limit.value else DefaultLimit;
            Paginate(msgs, limit, offset) == msgs[Min(off, |msgs|)..Min(off + lim, |msgs|)]
  {
    var off := if offset.Some? then offset.value else 0;
    var lim := if limit.Some? then limit.value else DefaultLimit;
    SkipIsSuffix(msgs, off);
    var rest := msgs[Min(off, |msgs|)..];
    TakeIsPrefix(rest, lim);
    assert rest[..Min(lim, |rest|)] == msgs[Min(off, |msgs|)..Min(off + lim, |msgs|)];
  }

  /** Without a limit or an offset, the page is the first hundred messages. */
  lemma PaginateDefaults<T>(msgs: seq<T>)
    ensures Paginate(msgs, None, None) == msgs[..Min(100, |msgs|)]
  {
    PaginateIsSlice(msgs, None, None);
  }

  /** `get_inspector_messages`: one page of the messages captured for the server. */
  method GetInspectorMessages(state: AppState, serverName: string, limit: Option<nat>, offset: Option<nat>)
    returns (r: Result<seq<InspectorMessage>>)
    ensures r == Ok(Paginate(state.GetInspectorMessages(serverName), limit, offset))
  {
    var messages := state.GetInspectorMessages(serverName);
    r := Ok(Paginate(messages, limit, offset));
  }

  // ---------------------------------------------------------------------------
  // Inspector sessions
  // ---------------------------------------------------------------------------

  /** The session map after `stop_inspector`: an existing session is switched off, nothing else changes. */
  function Deactivated(sessions: map<string, InspectorSessionState>, serverName: string)
    : (r: map<string, InspectorSessionState>)
    ensures r.Keys == sessions.Keys
    ensures serverName in r ==> !r[serverName].isActive && r[serverName].serverName == sessions[serverName].serverName
    ensures forall n :: n in r && n != serverName ==> r[n] == sessions[n]
  {
    if serverName in sessions then sessions[serverName := sessions[serverName].(isActive := false)] else sessions
  }

  /** Stopping twice is stopping once. */
  lemma DeactivatedIdempotent(sessions: map<string, InspectorSessionState>, serverName: string)
    ensures Deactivated(Deactivated(sessions, serverName), serverName) == Deactivated(sessions, serverName)
  {
    var once := Deactivated(sessions, serverName);
    if serverName in sessions {
      assert once[serverName := once[serverName].(isActive := false)] == once;
    }
  }

  /** A session that was started and then stopped is present and inactive. */
  lemma StartThenStop(sessions: map<string, InspectorSessionState>, serverName: string)
    ensures var after := Deactivated(sessions[serverName := InspectorSessionState(serverName, true)], serverName);
            serverName in after && after[serverName] == InspectorSessionState(serverName, false)
  {
  }

  /**
    `start_inspector`: record an active session under the server's name (replacing any
    earlier one) and return a fresh active session with no messages.
  */
  method StartInspector(state: AppState, serverName: string, now: string) returns (r: Result<InspectorSession>)
    modifies state`inspectorSessions
    ensures r == Ok(NewSession(serverName, now))
    ensures r.value.isActive && r.value.messageCount == 0
    ensures state.inspectorSessions == old(state.inspectorSessions)[serverName := InspectorSessionState(serverName, true)]
  {
    var session := NewSession(serverName, now);
    state.inspectorSessions := state.inspectorSessions[serverName := InspectorSessionState(serverName, true)];
    r := Ok(session);
  }

  /** `stop_inspector`: switch an existing session off; always succeeds. */
  method StopInspector(state: AppState, serverName: string) returns (r: Result<()>)
    modifies state`inspectorSessions
    ensures r == Ok(())
    ensures state.inspectorSessions == Deactivated(old(state.inspectorSessions), serverName)
  {
    if serverName in state.inspectorSessions {
      var session := state.inspectorSessions[serverName];
      state.inspectorSessions := state.inspectorSessions[serverName := session.(isActive := false)];
    }
    r := Ok(());
  }

  // ---------------------------------------------------------------------------
  // install_registry_server
  // ---------------------------------------------------------------------------

  /** The name a catalogue entry is installed under: the caller's, or else the entry's id. */
  function InstallName(entry: RegistryServer, customName: Option<string>): (name: string)
    ensures customName.Some? ==> name == customName.value
    ensures customName.None? ==> name == entry.id
  {
    if customName.Some? then customName.value else entry.id
  }

  /**
    `install_registry_server`: an unknown id is a `RegistryError` and nothing changes;
    otherwise the entry's default configuration is added like `add_server` does, under the
    chosen name, with that operation's errors.
  */
  method InstallRegistryServer(state: AppState, serverId: string, customName: Option<string>,
                               fault: Option<SynapticError>) returns (r: Result<()>)
    requires state.Valid()
    requires fault.Some? ==> IsWriteError(fault.value)
    modifies state`configCache, state`disk
    ensures state.Valid()
    ensures GetRegistryServer(serverId).None? ==>
      && r == Err(RegistryError("Server not found: " + serverId))
      && state.disk == old(state.disk) && state.configCache == old(state.configCache)
    ensures GetRegistryServer(serverId).Some? ==>
      var entry := GetRegistryServer(serverId).value;
      (r, state.disk) == Commit(old(state.disk),
                                AndThen(ReadConfigFile(old(state.disk)),
                                        c => AddServerTo(c, InstallName(entry, customName), entry.defaultConfig)),
                                fault)
  {
    var found := GetRegistryServer(serverId);
    if found.None? {
      return Err(RegistryError("Server not found: " + serverId));
    }
    var entry := found.value;
    var name := InstallName(entry, customName);
    r := state.AddServer(name, entry.defaultConfig, fault);
  }

  /** Every catalogue entry's default configuration passes the executable whitelist. */
  lemma BuiltinCommandsAllowed()
    ensures forall s :: s in BuiltinRegistry() ==> IsCommandAllowed(s.defaultConfig.command)
  {
    BuiltinDefaultsMatchInstallMethod();
    forall s | s in BuiltinRegistry() ensures IsCommandAllowed(s.defaultConfig.command) {
      assert s.installMethod.Npx? || s.installMethod.Uvx?;
      WhitelistedNamesAccepted(s.defaultConfig.command, "", '/');
    }
  }

  /**
    Installing a catalogue entry without a custom name into a readable configuration that
    does not have it yet, with a successful write, leaves the entry's default configuration
    under the entry's id.
  */
  lemma InstallUnderId(before: FileState, id: string)
    requires GetRegistryServer(id).Some?
    requires ReadConfigFile(before).Ok? && id !in ReadConfigFile(before).value.mcpServers
    ensures var entry := GetRegistryServer(id).value;
            var after := Commit(before, AndThen(ReadConfigFile(before),
                                                c => AddServerTo(c, InstallName(entry, None), entry.defaultConfig)), None);
            && after.0 == Ok(())
            && after.1.Holds? && id in after.1.config.mcpServers
            && after.1.config.mcpServers[id] == entry.defaultConfig
  {
  }

  // ---------------------------------------------------------------------------
  // spawn_server and restore_backup
  // ---------------------------------------------------------------------------

  /**
    `spawn_server`: the server must be in the configuration (a read error or a missing name
    is returned before the process manager is touched); its command and environment then go
    to `spawn_mcp_server`. The entry's `enabled` flag is not consulted.
  */
  method SpawnServer(state: AppState, pm: ProcessManager, name: string, launch: LaunchOutcome)
    returns (r: Result<nat>)
    requires state.Valid() && pm.Valid()
    modifies state`configCache, pm
    ensures state.Valid() && pm.Valid()
    ensures var read := ReadConfigFile(state.disk);
      && (read.Err? ==> r == Err(read.error))
      && (read.Ok? && name !in read.value.mcpServers ==> r == Err(ServerNotFound(name)))
      && (read.Err? || name !in read.value.mcpServers ==>
            pm.processes == old(pm.processes) && pm.secrets == old(pm.secrets))
      && (read.Ok? && name in read.value.mcpServers ==>
            var server := read.value.mcpServers[name];
            && SpawnEffect(old(pm.processes), old(pm.secrets), pm.processes, pm.secrets,
                           name, server.command, server.env, launch, r)
            && (r.Ok? <==> IsCommandAllowed(server.command) && !old(pm.IsRunning(name)) && launch.Launched?))
  {
    var loaded := state.GetConfig();
    if loaded.Err? {
      return Err(loaded.error);
    }
    if name !in loaded.value.mcpServers {
      return Err(ServerNotFound(name));
    }
    var server := loaded.value.mcpServers[name];
    r := SpawnMcpServer(pm, name, server.command, server.env, launch);
  }

  /**
    `restore_backup`: the restore itself (configuration file code outside this model) either
    fails with its error or leaves the file in a new state; on success the cache is dropped,
    so the next `get_config` reads the restored file.
  */
  method RestoreBackup(state: AppState, restored: Result<FileState>) returns (r: Result<()>)
    requires state.Valid()
    modifies state`configCache, state`disk
    ensures state.Valid()
    ensures restored.Err? ==>
      r == Err(restored.error) && state.disk == old(state.disk) && state.configCache == old(state.configCache)
    ensures restored.Ok? ==> r == Ok(()) && state.disk == restored.value && state.configCache == None
  {
    if restored.Err? {
      return Err(restored.error);
    }
    state.disk := restored.value;
    state.InvalidateCache();
    r := Ok(());
  }
}
