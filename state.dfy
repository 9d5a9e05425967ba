/**
  The application state shared by all commands (src-tauri/src/state.rs): the configuration
  cache in front of the configuration file, the server edits that go through it, the
  inspector sessions and the captured inspector messages. Each mutex-guarded operation is
  one sequential step here.
*/
module State {
  import opened Wrappers
  import opened Errors
  import opened Config
  import opened Inspector

  /** `InspectorSessionState`: whether the inspector of a server is switched on. */
  datatype InspectorSessionState = InspectorSessionState(serverName: string, isActive: bool)

  /** `a` and `b` agree on every server name other than `name`. */
  ghost predicate SameExcept(a: map<string, McpServer>, b: map<string, McpServer>, name: string)
  {
    forall k :: k != name ==> (k in a <==> k in b) && (k in a ==> a[k] == b[k])
  }

  /** The edit of `add_server`: refused when the name is taken, otherwise the one new entry. */
  function AddServerTo(c: McpConfig, name: string, server: McpServer): (r: Result<McpConfig>)
    ensures r.Err? <==> name in c.mcpServers
    ensures r.Err? ==> r.error == ServerAlreadyExists(name)
    ensures r.Ok? ==> name in r.value.mcpServers && r.value.mcpServers[name] == server
    ensures r.Ok? ==> SameExcept(r.value.mcpServers, c.mcpServers, name) && r.value.extra == c.extra
  {
    if name in c.mcpServers then Err(ServerAlreadyExists(name))
    else Ok(c.(mcpServers := c.mcpServers[name := server]))
  }

  /** The edit of `remove_server`: refused when the name is unknown, otherwise that entry goes. */
  function RemoveServerFrom(c: McpConfig, name: string): (r: Result<McpConfig>)
    ensures r.Err? <==> name !in c.mcpServers
    ensures r.Err? ==> r.error == ServerNotFound(name)
    ensures r.Ok? ==> name !in r.value.mcpServers
    ensures r.Ok? ==> SameExcept(r.value.mcpServers, c.mcpServers, name) && r.value.extra == c.extra
  {
    if name !in c.mcpServers then Err(ServerNotFound(name))
    else Ok(c.(mcpServers := c.mcpServers - {name}))
  }

  /** The edit of `update_server`: refused when the name is unknown, otherwise that entry is replaced. */
  function UpdateServerIn(c: McpConfig, name: string, server: McpServer): (r: Result<McpConfig>)
    ensures r.Err? <==> name !in c.mcpServers
    ensures r.Err? ==> r.error == ServerNotFound(name)
    ensures r.Ok? ==> name in r.value.mcpServers && r.value.mcpServers[name] == server
    ensures r.Ok? ==> SameExcept(r.value.mcpServers, c.mcpServers, name) && r.value.extra == c.extra
  {
    if name !in c.mcpServers then Err(ServerNotFound(name))
    else Ok(c.(mcpServers := c.mcpServers[name := server]))
  }

  /**
    The edit of `toggle_server`: refused when the name is unknown, otherwise only the entry's
    `enabled` flag changes; its command, arguments, environment and directory stay.
  */
  function ToggleServerIn(c: McpConfig, name: string, enabled: bool): (r: Result<McpConfig>)
    ensures r.Err? <==> name !in c.mcpServers
    ensures r.Err? ==> r.error == ServerNotFound(name)
    ensures r.Ok? ==> name in r.value.mcpServers
    ensures r.Ok? ==> var before, after := c.mcpServers[name], r.value.mcpServers[name];
                      after.enabled == enabled && after.command == before.command && after.args == before.args
                      && after.env == before.env && after.cwd == before.cwd
    ensures r.Ok? ==> SameExcept(r.value.mcpServers, c.mcpServers, name) && r.value.extra == c.extra
  {
    if name !in c.mcpServers then Err(ServerNotFound(name))
    else Ok(c.(mcpServers := c.mcpServers[name := c.mcpServers[name].(enabled := enabled)]))
  }

  /**
    What a read-modify-write of the configuration file leaves behind: the error of the read
    or of the edit with the file untouched; otherwise the write, which either fails with the
    environment's error and leaves the file as it was, or stores the edited configuration.
  */
  function Commit(before: FileState, edited: Result<McpConfig>, fault: Option<SynapticError>): (r: (Result<()>, FileState))
    ensures r.0.Ok? <==> edited.Ok? && fault.None?
    ensures r.0.Err? ==> r.1 == before && r.0.error == (if edited.Err? then edited.error else fault.value)
    ensures r.0.Ok? ==> ReadConfigFile(r.1) == edited
  {
    if edited.Err? then (Err(edited.error), before)
    else if fault.Some? then (Err(fault.value), before)
    else (Ok(()), Holds(edited.value))
  }

  class AppState {
    var configCache: Option<McpConfig>
    var inspectorSessions: map<string, InspectorSessionState>
    var inspectorMessages: map<string, seq<InspectorMessage>>
    /** The configuration file that `read_config_file` and `write_config_file` reach. */
    var disk: FileState

    /** The cache is coherent: when it holds a configuration, reading the file gives the same one. */
    ghost predicate Valid()
      reads this
    {
      configCache.Some? ==> ReadConfigFile(disk) == Ok(configCache.value)
    }

    /** `AppState::new()`, next to a configuration file in the given state. */
    constructor (disk: FileState)
      ensures Valid()
      ensures configCache == None && inspectorSessions == map[] && inspectorMessages == map[]
      ensures this.disk == disk
    {
      configCache := None;
      inspectorSessions := map[];
      inspectorMessages := map[];
      this.disk := disk;
    }

    /**
      `get_config`: the cached configuration when there is one; otherwise the file is read
      and a successful read fills the cache. Either way the answer is what the file holds.
    */
    method GetConfig() returns (r: Result<McpConfig>)
      requires Valid()
      modifies this`configCache
      ensures Valid()
      ensures r == ReadConfigFile(disk)
      ensures old(configCache).Some? ==> configCache == old(configCache) && r == Ok(old(configCache).value)
      ensures old(configCache).None? ==> configCache == (if r.Ok? then Some(r.value) else None)
    {
      if configCache.Some? {
        return Ok(configCache.value);
      }
      r := ReadConfigFile(disk);
      if r.Ok? {
        configCache := Some(r.value);
      }
    }

    /**
      `set_config`: write the file first; only a successful write replaces the cache, so a
      failed write leaves both the file and the cache as they were. The write fails when the
      path cannot be resolved, and otherwise when the environment makes it fail (`fault`).
    */
    method SetConfig(config: McpConfig, fault: Option<SynapticError>) returns (r: Result<()>)
      requires Valid()
      requires fault.Some? ==> IsWriteError(fault.value)
      modifies this`configCache, this`disk
      ensures Valid()
      ensures old(disk).Unlocatable? ==>
        r == Err(ConfigNotFound(old(disk).reason)) && disk == old(disk) && configCache == old(configCache)
      ensures !old(disk).Unlocatable? && fault.None? ==> r == Ok(()) && disk == Holds(config) && configCache == Some(config)
      ensures !old(disk).Unlocatable? && fault.Some? ==>
        r == Err(fault.value) && disk == old(disk) && configCache == old(configCache)
    {
      if disk.Unlocatable? {
        return Err(ConfigNotFound(disk.reason));
      }
      if fault.Some? {
        return Err(fault.value);
      }
      disk := Holds(config);
      configCache := Some(config);
      r := Ok(());
    }

    /** `invalidate_cache`: forget the cached configuration. */
    method InvalidateCache()
      modifies this`configCache
      ensures configCache == None && Valid()
    {
      configCache := None;
    }

    /** `add_server`: a read-modify-write with `AddServerTo`. */
    method AddServer(name: string, server: McpServer, fault: Option<SynapticError>) returns (r: Result<()>)
      requires Valid()
      requires fault.Some? ==> IsWriteError(fault.value)
      modifies this`configCache, this`disk
      ensures Valid()
      ensures (r, disk) == Commit(old(disk), AndThen(ReadConfigFile(old(disk)), c => AddServerTo(c, name, server)), fault)
      ensures r.Ok? ==> configCache == Some(disk.config)
      ensures r.Err? ==> configCache == (var read := old(ReadConfigFile(disk)); if read.Ok? then Some(read.value) else None)
    {
      var loaded := GetConfig();
      if loaded.Err? {
        return Err(loaded.error);
      }
      var config := loaded.value;
      if name in config.mcpServers {
        return Err(ServerAlreadyExists(name));
      }
      config := config.(mcpServers := config.mcpServers[name := server]);
      r := SetConfig(config, fault);
    }

    /** `remove_server`: a read-modify-write with `RemoveServerFrom`. */
    method RemoveServer(name: string, fault: Option<SynapticError>) returns (r: Result<()>)
      requires Valid()
      requires fault.Some? ==> IsWriteError(fault.value)
      modifies this`configCache, this`disk
      ensures Valid()
      ensures (r, disk) == Commit(old(disk), AndThen(ReadConfigFile(old(disk)), c => RemoveServerFrom(c, name)), fault)
      ensures r.Ok? ==> configCache == Some(disk.config)
      ensures r.Err? ==> configCache == (var read := old(ReadConfigFile(disk)); if read.Ok? then Some(read.value) else None)
    {
      var loaded := GetConfig();
      if loaded.Err? {
        return Err(loaded.error);
      }
      var config := loaded.value;
      if name !in config.mcpServers {
        return Err(ServerNotFound(name));
      }
      config := config.(mcpServers := config.mcpServers - {name});
      r := SetConfig(config, fault);
    }

    /** `update_server`: a read-modify-write with `UpdateServerIn`. */
    method UpdateServer(name: string, server: McpServer, fault: Option<SynapticError>) returns (r: Result<()>)
      requires Valid()
      requires fault.Some? ==> IsWriteError(fault.value)
      modifies this`configCache, this`disk
      ensures Valid()
      ensures (r, disk) == Commit(old(disk), AndThen(ReadConfigFile(old(disk)), c => UpdateServerIn(c, name, server)), fault)
      ensures r.Ok? ==> configCache == Some(disk.config)
      ensures r.Err? ==> configCache == (var read := old(ReadConfigFile(disk)); if read.Ok? then Some(read.value) else None)
    {
      var loaded := GetConfig();
      if loaded.Err? {
        return Err(loaded.error);
      }
      var config := loaded.value;
      if name !in config.mcpServers {
        return Err(ServerNotFound(name));
      }
      config := config.(mcpServers := config.mcpServers[name := server]);
      r := SetConfig(config, fault);
    }

    /** `toggle_server`: a read-modify-write with `ToggleServerIn`. */
    method ToggleServer(name: string, enabled: bool, fault: Option<SynapticError>) returns (r: Result<()>)
      requires Valid()
      requires fault.Some? ==> IsWriteError(fault.value)
      modifies this`configCache, this`disk
      ensures Valid()
      ensures (r, disk) == Commit(old(disk), AndThen(ReadConfigFile(old(disk)), c => ToggleServerIn(c, name, enabled)), fault)
      ensures r.Ok? ==> configCache == Some(disk.config)
      ensures r.Err? ==> configCache == (var read := old(ReadConfigFile(disk)); if read.Ok? then Some(read.value) else None)
    {
      var loaded := GetConfig();
      if loaded.Err? {
        return Err(loaded.error);
      }
      var config := loaded.value;
      if name !in config.mcpServers {
        return Err(ServerNotFound(name));
      }
      var server := config.mcpServers[name];
      server := server.(enabled := enabled);
      config := config.(mcpServers := config.mcpServers[name := server]);
      r := SetConfig(config, fault);
    }

    /** `get_inspector_messages`: the messages captured for a server, none for an unknown one. */
    function GetInspectorMessages(serverName: string): (msgs: seq<InspectorMessage>)
      reads this
      ensures serverName !in inspectorMessages ==> msgs == []
    {
      if serverName in inspectorMessages then inspectorMessages[serverName] else []
    }

    /** `add_inspector_message`: append to the server's list, creating it when missing. */
    method AddInspectorMessage(serverName: string, message: InspectorMessage)
      modifies this`inspectorMessages
      ensures GetInspectorMessages(serverName) == old(GetInspectorMessages(serverName)) + [message]
      ensures forall n :: n != serverName ==> GetInspectorMessages(n) == old(GetInspectorMessages(n))
      ensures inspectorMessages.Keys == old(inspectorMessages.Keys) + {serverName}
    {
      var current := GetInspectorMessages(serverName);
      inspectorMessages := inspectorMessages[serverName := current + [message]];
    }

    /** `clear_inspector_messages`: drop the server's list; the other lists stay. */
    method ClearInspectorMessages(serverName: string)
      modifies this`inspectorMessages
      ensures GetInspectorMessages(serverName) == []
      ensures forall n :: n != serverName ==> GetInspectorMessages(n) == old(GetInspectorMessages(n))
      ensures inspectorMessages.Keys == old(inspectorMessages.Keys) - {serverName}
    {
      inspectorMessages := inspectorMessages - {serverName};
    }
  }

  /**
    The round trip of `set_config` and `get_config`: once a configuration is written, the next
    read returns it, from the cache and, after the cache is dropped, from the file. Writing to
    a path that cannot be resolved fails.
  */
  method SetThenGet(state: AppState, config: McpConfig) returns (written: Result<()>, cached: Result<McpConfig>,
                                                                   reread: Result<McpConfig>)
    requires state.Valid()
    modifies state`configCache, state`disk
    ensures state.Valid()
    ensures old(state.disk).Unlocatable? ==> written.Err?
    ensures !old(state.disk).Unlocatable? ==> written == Ok(()) && cached == Ok(config) && reread == Ok(config)
  {
    written := state.SetConfig(config, None);
    cached := state.GetConfig();
    state.InvalidateCache();
    reread := state.GetConfig();
  }

  /** Adding a fresh server and then removing it gives back the servers that were there before. */
  lemma AddThenRemove(c: McpConfig, name: string, server: McpServer)
    requires name !in c.mcpServers
    ensures AddServerTo(c, name, server).Ok?
    ensures RemoveServerFrom(AddServerTo(c, name, server).value, name) == Ok(c)
  {
    var added := AddServerTo(c, name, server).value;
    assert added.mcpServers - {name} == c.mcpServers;
  }

  /** Toggling twice is the same as toggling once to the last value. */
  lemma ToggleTwice(c: McpConfig, name: string, a: bool, b: bool)
    requires name in c.mcpServers
    ensures AndThen(ToggleServerIn(c, name, a), c' => ToggleServerIn(c', name, b)) == ToggleServerIn(c, name, b)
  {
    var once := ToggleServerIn(c, name, a).value;
    var server := c.mcpServers[name];
    assert once.mcpServers[name := server.(enabled := b)] == c.mcpServers[name := server.(enabled := b)];
  }

  /** Toggling a server to the value it already has changes nothing. */
  lemma ToggleToSameValue(c: McpConfig, name: string)
    requires name in c.mcpServers
    ensures ToggleServerIn(c, name, c.mcpServers[name].enabled) == Ok(c)
  {
    assert c.mcpServers[name := c.mcpServers[name]] == c.mcpServers;
  }
}
