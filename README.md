# WeaR-Synaptic backend: a Dafny model

WeaR-Synaptic is a desktop manager for the MCP (Model Context Protocol) servers that Claude
Desktop launches. Its Rust backend:

- edits the `mcpServers` section of `claude_desktop_config.json` through a cached application state;
- installs servers from a built-in catalogue;
- spawns whitelisted server executables and relays their stdin, stdout and stderr to the
  frontend as traffic events. The stdin and stdout events have the registered secrets (the
  values of the servers' environment variables) replaced by "[REDACTED]"; the stderr events
  carry the raw line;
- keeps a per-server log of the JSON-RPC messages it captured, for the inspector view.

This project models that core in Dafny and proves what it promises. Each module follows one
source file:

| module | source | form |
|---|---|---|
| `Errors` | `error.rs` | datatypes, functions and lemmas |
| `Config` | the `McpServer`/`McpConfig` schema of `config.rs`; the file is a value | datatypes and functions |
| `Inspector` | `inspector.rs` | datatypes, functions and lemmas |
| `State` | `state.rs` | class `AppState`, whose methods change the cache, the file and the inspector maps; its fields are in the table below |
| `Processes` | `process_manager.rs` | whitelist functions and lemmas; class `ProcessManager`; methods for the spawn skeleton and one step of each relay loop |
| `Registry` | `registry.rs` | constants, functions and lemmas |
| `Commands` | `commands.rs` | pure pagination; methods for the commands that change state |
| `Strings`, `Json`, `Wrappers` | the parts of Rust's `str`, `serde_json::Value` and `Option` that the core uses | helpers |

The fields of `AppState`:

- `configCache`: the cached configuration;
- `disk`: the configuration file;
- `inspectorSessions`: the inspector sessions;
- `inspectorMessages`: the captured messages.

The environment enters as parameters, not as hidden calls:

- `LaunchOutcome` is the result of the OS launch;
- `ProbeOutcome` is the result of running `--version`;
- `fault` is the write error of the configuration file;
- `parse` is the JSON text parser;
- `now`, `id` and `messageId` are the timestamps and UUIDs;
- `delivered` says whether a stdin channel still accepts data;
- `restored` is the result of a backup restore.

Behaviour of the source that the model keeps, and that a reader may not expect:

- `spawn_mcp_server` registers the environment values as secrets before it attempts the
  launch, so they stay registered when the launch fails (`Processes.SpawnMcpServer`).
- The stdout relay redacts the traffic event. The inspector message it stores for a line that
  parses as JSON holds the unredacted payload (`Processes.StdoutReaderStep`).
- `spawn_server` does not look at the entry's `enabled` flag (`Commands.SpawnServer`).
- `kill_process` on a name with no entry is an error, not a no-op
  (`Processes.ProcessManager.KillProcess`).
- Redaction replaces the secrets one after another in registration order, on the text as
  the earlier replacements left it. A later secret that occurs in "[REDACTED]" ("RED", say)
  rewrites the marker the earlier ones left, and a later secret can match across an earlier
  marker. With the secrets "abc" and "RED", the line "abc" is relayed as
  "[[REDACTED]ACTED]" (`Processes.MarkerRewrittenByLaterSecret`).

## Model

| member | source | states |
|---|---|---|
| Errors.Code | src-tauri/src/error.rs:55-68 | every code has 8 to 21 characters; that the codes tell the variants apart is `CodeIdentifiesVariant` |
| Errors.Prefix | src-tauri/src/error.rs:9-43 | every message prefix has 10 to 31 characters; that no prefix begins another is `PrefixesIncomparable` |
| Errors.PrefixesIncomparable | src-tauri/src/error.rs:9-43 | for two different variants there is a position at which their prefixes differ |
| Errors.Message | src-tauri/src/error.rs:9-43 | the message of an error is its variant's fixed prefix ("Server not found: ", …) followed by its payload |
| Errors.MessageInjective | src-tauri/src/error.rs:9-43 | two errors with the same message are the same error: no prefix is a prefix of another |
| Errors.KindAndDetailDetermine | src-tauri/src/error.rs:8-44 | an error is determined by its variant and its payload string |
| Errors.ToResponse | src-tauri/src/error.rs:53-75 | the frontend response carries the variant's code and the error's message |
| Errors.CodeIdentifiesVariant | src-tauri/src/error.rs:55-68 | two errors have the same code exactly when they are the same variant: the twelve codes are pairwise distinct |
| Errors.CloneAsError | src-tauri/src/error.rs:88-103 | the clone has the same variant and the same payload |
| Errors.Serialize | src-tauri/src/error.rs:78-85 | serialising an error gives the same response as the `From` conversion |
| Errors.SerializeAgreesWithFrom | src-tauri/src/error.rs:78-85 | the serialised code and message are the error's code and message |
| Errors.FromIoError | src-tauri/src/error.rs:106-110 | an I/O error becomes an `IoError` with code IO_ERROR and message "IO error: " + its text |
| Errors.FromJsonError | src-tauri/src/error.rs:112-116 | a JSON error becomes a `ConfigParseError` with message "Failed to parse configuration: " + its text |
| Config.ServerWithDefaults | src-tauri/src/config.rs:27-53 | a server entry given only its command has no arguments, no environment, no directory, and is enabled |
| Config.ReadConfigFile | src-tauri/src/config.rs:146-163 | an unresolvable path is ConfigNotFound; a missing file reads as the empty configuration; a read failure is a ConfigReadError; a parse failure is a ConfigParseError; otherwise the stored configuration |
| Inspector.MethodName | src-tauri/src/inspector.rs:49 | the method name is present exactly when the payload is an object whose `method` member is a string, and is that string |
| Inspector.NewRequest | src-tauri/src/inspector.rs:48-60 | a request message keeps the payload, has no duration, and is named exactly when `method` is a string member |
| Inspector.NewResponse | src-tauri/src/inspector.rs:63-73 | a response message keeps the payload and has neither a method name nor a duration |
| Inspector.NewSession | src-tauri/src/inspector.rs:86-93 | a new session is active and has counted no messages |
| Inspector.Classify | src-tauri/src/inspector.rs:105-117 | only an object with a `method`, `result` or `error` member is classified |
| Inspector.ParseJsonRpcMessage | src-tauri/src/inspector.rs:105-117 | text that does not parse gives None; a result holds the parsed value unchanged with its classification; every parsed value that classifies gives a result |
| Inspector.MethodMakesRequest | src-tauri/src/inspector.rs:109-110 | an object with a `method` member is a request, even when it also has `result` or `error` |
| Inspector.ResponseIffResultOrError | src-tauri/src/inspector.rs:112-116 | without `method`, a value is a response exactly when it is an object with `result` or `error`, and unclassified otherwise |
| Inspector.NonObjectUnclassified | src-tauri/src/inspector.rs:105-117 | a value that is not an object is never classified |
| Inspector.RequestsClassifyAsRequests | src-tauri/src/inspector.rs:105-117 | every JSON-RPC 2.0 request object (section 4), notifications included, classifies as a request and is named after its method |
| Inspector.ResponsesClassifyAsResponses | src-tauri/src/inspector.rs:112-116 | every JSON-RPC 2.0 response object (section 5) classifies as a response |
| Inspector.ParsesTestMessages | src-tauri/src/inspector.rs:123-139 | the two messages of the module's tests classify as Request and Response |
| Strings.ToLowercase | src-tauri/src/process_manager.rs:156 | lower-casing keeps the length and maps each character |
| Strings.LastSegment | src-tauri/src/process_manager.rs:157-160 | the piece after the last `/` or `\`: a suffix without separators that is the whole string or follows a separator |
| Strings.TrimEndMatches | src-tauri/src/process_manager.rs:161-163 | what is left no longer ends with the suffix, and what was cut is a whole number of copies of it |
| Strings.TrimEndMatchesAppend | src-tauri/src/process_manager.rs:161-163 | trimming `s + suffix` gives the same as trimming `s` |
| Strings.ReplaceWithoutOccurrence | src-tauri/src/process_manager.rs:72-81 | `replace` leaves a string in which the pattern does not occur unchanged |
| Strings.ReplaceAtStart | src-tauri/src/process_manager.rs:72-81 | `replace` puts the replacement where the pattern occurs at the start |
| Strings.Trim | src-tauri/src/registry.rs:218-220 | the trimmed text is no longer than the input and neither starts nor ends with white space |
| Strings.TrimIsSlice | src-tauri/src/registry.rs:218-220 | the trimmed text is a slice of the input with only white space before and after it |
| Processes.CommandBase | src-tauri/src/process_manager.rs:155-164 | the base is no longer than the command, holds no separator and no ASCII capital, and does not end with ".bat" |
| Processes.IsCommandAllowed | src-tauri/src/process_manager.rs:155-166 | a command is allowed exactly when its base is one of the twelve whitelisted names; the predicate has no contract of its own, and what the verdict depends on is stated by the lemmas below |
| Processes.ShortCommandsRefused | src-tauri/src/process_manager.rs:155-166 | the empty command, and every one-character command, is refused |
| Processes.AllowedIgnoresCase | src-tauri/src/process_manager.rs:155-166 | the whitelist verdict of a command is that of its lower-cased form |
| Processes.AllowedIgnoresDirectory | src-tauri/src/process_manager.rs:155-166 | a directory and a `/` or `\` in front of a name change neither its base nor the verdict |
| Processes.AllowedIgnoresExeSuffix | src-tauri/src/process_manager.rs:155-166 | appending ".exe" changes neither the base nor the verdict |
| Processes.WhitelistedNamesAccepted | src-tauri/src/process_manager.rs:411-424 | every whitelisted name is accepted bare, with ".exe" or ".cmd", and behind any directory (the test's "/usr/bin/node", "C:\Program Files\node", "node.exe", "npx.cmd") |
| Processes.UnlistedNamesRefused | src-tauri/src/process_manager.rs:155-166 | a plain name that is not on the list is refused bare, with ".exe" and behind any directory |
| Processes.ShellsRefused | src-tauri/src/process_manager.rs:426-431 | "bash", "sh", "cmd", "powershell" and "rm" are refused |
| Processes.WithSecrets | src-tauri/src/process_manager.rs:62-69 | registering keeps the old list as a prefix and adds at most one entry per value given |
| Processes.WithSecretsRegisters | src-tauri/src/process_manager.rs:62-69 | after registering, earlier secrets keep their places, every non-empty value is present, only given values are added, and the list stays free of duplicates and of the empty string |
| Processes.WithSecretsExtends | src-tauri/src/process_manager.rs:62-69 | registration only appends, and only values it was given |
| Processes.WithSecretsContains | src-tauri/src/process_manager.rs:62-69 | every non-empty value given is in the list afterwards |
| Processes.WithSecretsWellFormed | src-tauri/src/process_manager.rs:62-69 | a list without duplicates and without the empty string stays so |
| Processes.WithSecretsKeepsPresent | src-tauri/src/process_manager.rs:62-69 | registering values that are already present, or empty, changes nothing |
| Processes.WithSecretsIdempotent | src-tauri/src/process_manager.rs:62-69 | registering the same values twice adds nothing the second time |
| Processes.RedactNothing | src-tauri/src/process_manager.rs:72-81 | with no secrets, redaction is the identity |
| Processes.Redact | src-tauri/src/process_manager.rs:72-81 | a text in which no non-empty secret occurs comes back unchanged |
| Processes.RedactSequential | src-tauri/src/process_manager.rs:72-81 | secrets are applied one after another in registration order: redacting with `a + b` is redacting with `a`, then with `b` |
| Processes.RedactWholeSecret | src-tauri/src/process_manager.rs:72-81 | a line that consists of a registered secret is redacted to "[REDACTED]" when no earlier secret occurs in the line and no later secret occurs in "[REDACTED]" |
| Processes.MarkerRewrittenByLaterSecret | src-tauri/src/process_manager.rs:72-81 | the side condition is needed: a later secret shorter than the marker and occurring in it, such as "RED", turns a line made of the first secret into something other than "[REDACTED]" |
| Processes.RedactLine | src-tauri/src/process_manager.rs:72-81 | the replace loop computes the redaction of the line by the secrets in order |
| Processes.KeysInSomeOrder | src-tauri/src/process_manager.rs:133-136 | the keys of a map, each exactly once, in some order |
| Processes.ProcessManager.constructor | src-tauri/src/process_manager.rs:54-59 | a new manager has no processes and no secrets |
| Processes.ProcessManager.RegisterSecrets | src-tauri/src/process_manager.rs:62-69 | the push loop leaves the list that registering the values specifies, keeping it free of duplicates and empty strings |
| Processes.ProcessManager.IsRunning | src-tauri/src/process_manager.rs:84-87 | a name is running exactly when it has an entry in the table; the predicate has no contract of its own, and `ListRunning`, `KillProcess` and `SpawnMcpServer` state their effects through it |
| Processes.ProcessManager.RedactSecrets | src-tauri/src/process_manager.rs:72-81 | the content redacted by the registered secrets |
| Processes.ProcessManager.KillProcess | src-tauri/src/process_manager.rs:90-104 | succeeds exactly when the name has an entry and removes just that entry; otherwise ProcessError "Process not found: n" with the table unchanged; afterwards the name is not running |
| Processes.ProcessManager.KillAll | src-tauri/src/process_manager.rs:106-111 | the table is empty |
| Processes.ProcessManager.SendToStdin | src-tauri/src/process_manager.rs:114-131 | succeeds exactly when the name has an entry and its channel is open; the two errors are "Process not found: n" and "Failed to send: channel closed"; the table is not changed |
| Processes.ProcessManager.ListRunning | src-tauri/src/process_manager.rs:133-136 | exactly the running names, each once |
| Processes.ProcessManager.OnProcessExit | src-tauri/src/process_manager.rs:379-383 | the watchdog removes the name's entry and nothing else |
| Processes.EnvValues | src-tauri/src/process_manager.rs:198-199 | the collected values are exactly the values of the environment map |
| Processes.SpawnMcpServer | src-tauri/src/process_manager.rs:173-227 | a command off the whitelist is refused with ProcessError "Command not allowed: c. Allowed: [...]", and a name already running with "Server already running: n", both before any change. Otherwise the environment values are registered as secrets and stay registered; a failed launch returns "Failed to spawn: …" or "Failed to get PID" with the table unchanged; a launched process is entered under its name with its pid and a snapshot of the secrets. It succeeds exactly when the command is allowed, the name was not running and the launch succeeded, and then the name is running |
| Processes.RegisterAndLaunch | src-tauri/src/process_manager.rs:197-227 | the part after the two checks: the values are registered, then the launch outcome decides between the two errors with the table unchanged and the new entry |
| Processes.StdinWriterStep | src-tauri/src/process_manager.rs:255-291 | the OUTGOING event carries the data redacted by the secrets copied into the process's entry at spawn, while the process receives the original data and a newline |
| Processes.StdoutReaderStep | src-tauri/src/process_manager.rs:296-333 | the INCOMING event carries the line redacted by the secrets copied into the process's entry at spawn; a line that parses is appended, unredacted, as a response message to that server's log and no other |
| Processes.StderrEvent | src-tauri/src/process_manager.rs:337-357 | the STDERR event carries the raw line |
| State.AddServerTo | src-tauri/src/state.rs:58-67 | fails with ServerAlreadyExists(n) exactly when n is present; otherwise n maps to the server and every other entry and member is unchanged |
| State.RemoveServerFrom | src-tauri/src/state.rs:70-78 | fails with ServerNotFound(n) exactly when n is absent; otherwise n is gone and everything else is unchanged |
| State.UpdateServerIn | src-tauri/src/state.rs:81-90 | fails with ServerNotFound(n) exactly when n is absent; otherwise only n's entry is replaced |
| State.ToggleServerIn | src-tauri/src/state.rs:93-103 | fails with ServerNotFound(n) exactly when n is absent; otherwise only n's `enabled` changes, keeping its command, arguments, environment and directory |
| State.Commit | src-tauri/src/state.rs:44-67 | the write of an edit succeeds exactly when the edit succeeded and the file accepts the write; on failure the file is unchanged and the error is the edit's, else the write's; on success the file reads back as the edited configuration |
| State.AddThenRemove | src-tauri/src/state.rs:58-78 | adding a fresh server and removing it again restores the configuration |
| State.ToggleTwice | src-tauri/src/state.rs:93-103 | toggling to a and then to b is toggling to b |
| State.ToggleToSameValue | src-tauri/src/state.rs:93-103 | toggling to the current value changes nothing |
| State.AppState.constructor | src-tauri/src/state.rs:22-28 | empty cache, sessions and messages |
| State.AppState.GetConfig | src-tauri/src/state.rs:31-41 | the answer is what the file holds; a filled cache is returned and kept; an empty cache is filled by a successful read |
| State.AppState.SetConfig | src-tauri/src/state.rs:44-49 | a successful write stores the configuration and then caches it; a failed write (unresolvable path, or the environment's error) leaves the file and the cache as they were |
| State.AppState.InvalidateCache | src-tauri/src/state.rs:52-55 | the cache is empty |
| State.SetThenGet | src-tauri/src/state.rs:31-55 | on a file whose path resolves, `set_config(c)` succeeds, the next `get_config` returns `c`, and after the cache is invalidated `get_config` reads `c` back from the file; an unresolvable path makes the write fail |
| State.AppState.AddServer | src-tauri/src/state.rs:58-67 | the result and the new file are those of reading, applying `AddServerTo` and writing; on success the cache holds the new file's configuration; on an error it holds what was read, or nothing when the read failed |
| State.AppState.RemoveServer | src-tauri/src/state.rs:70-78 | the same read-edit-write with `RemoveServerFrom`, and the same cache on success and on error |
| State.AppState.UpdateServer | src-tauri/src/state.rs:81-90 | the same read-edit-write with `UpdateServerIn`, and the same cache on success and on error |
| State.AppState.ToggleServer | src-tauri/src/state.rs:93-103 | the same read-edit-write with `ToggleServerIn`, and the same cache on success and on error |
| State.AppState.AddInspectorMessage | src-tauri/src/state.rs:106-112 | the message is appended at the end of that server's log; every other server's log is unchanged |
| State.AppState.GetInspectorMessages | src-tauri/src/state.rs:115-118 | an unknown server has no messages |
| State.AppState.ClearInspectorMessages | src-tauri/src/state.rs:121-124 | that server's log is empty afterwards; every other log is unchanged |
| Registry.BuiltinRegistry | src-tauri/src/registry.rs:74-185 | the catalogue has five entries |
| Registry.BuiltinIdsInOrder | src-tauri/src/registry.rs:74-185 | the ids are filesystem, sqlite, github, memory and brave-search, in that order |
| Registry.BuiltinIdsDistinct | src-tauri/src/registry.rs:74-185 | no two entries share an id |
| Registry.BuiltinDefaultsMatchInstallMethod | src-tauri/src/registry.rs:74-185 | each entry's default configuration runs its own package: `npx -y <package>` or `uvx <package>`. It is enabled, has no directory and declares only empty environment values |
| Registry.FindById | src-tauri/src/registry.rs:187-189 | None exactly when no entry has the id; otherwise the first entry with the id |
| Registry.GetRegistryServer | src-tauri/src/registry.rs:187-189 | a found entry has the id asked for and is one of the five built-ins |
| Registry.GetRegistryServerIds | src-tauri/src/registry.rs:187-189 | a lookup succeeds exactly for the five built-in ids and returns that entry |
| Registry.ProbeCommand | src-tauri/src/registry.rs:197-206 | node and npx probe "node"; python, python3, uvx and uv probe "python"; any other name has no probe |
| Registry.CheckRuntimeAvailability | src-tauri/src/registry.rs:196-236 | an unknown runtime is RuntimeNotFound("Unknown runtime: r"); otherwise the status echoes the runtime, is available exactly when the probe succeeded, carries the trimmed output as version only then, and never a path |
| Registry.RuntimeVersionTrimmed | src-tauri/src/registry.rs:218-227 | a reported version has no white space at either end |
| Commands.Skip | src-tauri/src/commands.rs:146 | `skip(n)` leaves length − n elements, or none when n is at least the length (which ones is `SkipIsSuffix`) |
| Commands.Take | src-tauri/src/commands.rs:146 | `take(n)` leaves min(n, length) elements (which ones is `TakeIsPrefix`) |
| Commands.Paginate | src-tauri/src/commands.rs:141-148 | a page is no longer than the log and no longer than the limit (100 when none is given), and is empty once the offset reaches the end |
| Commands.SkipIsSuffix | src-tauri/src/commands.rs:146 | `skip(n)` is the suffix from min(n, length) |
| Commands.TakeIsPrefix | src-tauri/src/commands.rs:146 | `take(n)` is the prefix up to min(n, length) |
| Commands.PaginateIsSlice | src-tauri/src/commands.rs:141-148 | a page is the slice of the log from min(offset, length) to min(offset + limit, length), with defaults 0 and 100 |
| Commands.PaginateDefaults | src-tauri/src/commands.rs:143-144 | without limit and offset the page is the first hundred messages |
| Commands.GetInspectorMessages | src-tauri/src/commands.rs:135-149 | the command returns the page of the server's log |
| Commands.Deactivated | src-tauri/src/commands.rs:124-131 | stopping keeps the set of sessions, switches the named one off and leaves every other one unchanged |
| Commands.DeactivatedIdempotent | src-tauri/src/commands.rs:124-131 | stopping twice is stopping once |
| Commands.StartThenStop | src-tauri/src/commands.rs:101-131 | a started and then stopped session is present and inactive |
| Commands.StartInspector | src-tauri/src/commands.rs:96-116 | an active session state is stored under the name, replacing any earlier one; the returned session is active with no messages |
| Commands.StopInspector | src-tauri/src/commands.rs:120-131 | always Ok; the session map becomes the stopped map |
| Commands.InstallName | src-tauri/src/commands.rs:181 | the custom name when given, otherwise the catalogue id |
| Commands.InstallRegistryServer | src-tauri/src/commands.rs:173-185 | an unknown id is RegistryError("Server not found: id") with nothing changed; otherwise the entry's default configuration is added under the chosen name like `add_server`, with its errors |
| Commands.InstallUnderId | src-tauri/src/commands.rs:178-184 | installing without a custom name into a configuration lacking the id stores the default configuration under the id |
| Commands.BuiltinCommandsAllowed | src-tauri/src/registry.rs:74-185 | every catalogue entry's command passes the executable whitelist |
| Commands.SpawnServer | src-tauri/src/commands.rs:199-223 | a read error or ServerNotFound(n) comes before the process manager is touched. Otherwise every outcome of `spawn_mcp_server` holds for the entry's command and environment: the two refusals with nothing changed, the secrets registered and kept on a failed launch, the entry on success; it succeeds exactly when the command is whitelisted, the name is not running and the launch succeeded |
| Commands.RestoreBackup | src-tauri/src/commands.rs:80-88 | a failed restore changes nothing; a successful one installs the restored file and empties the cache, so the next read sees it |

## Left out

- Concurrency: every mutex-guarded operation is one atomic step, and each relay loop is one step per line. Interleavings are not modelled. In particular, an old process's watchdog may remove the entry of a process respawned under the same name.
- Process launch, pipes, the kill signal, the stdin channel and the `--version` probe are OS I/O. Their outcomes are the parameters `launch`, `delivered` and `probe`.
- Processes.SpawnMcpServer: the command's arguments and working directory are not inputs, since they only reach the OS launch.
- Processes.StdinWriterStep: a failed write to the process ends the writer loop in the source; the model has no loop to end.
- Processes.StdoutReaderStep: a read error ends the reader loop in the source; the model has no loop to end.
- Tauri's `emit`, `try_state` and `AppHandle`: an emitted event is the step's return value. The application state is always present.
- The timestamps (`chrono`) and UUIDs are string parameters. The pid (`u32`) is a natural number.
- The text of `serde_json`: parsing is the function parameter `parse`, and serialisation is not modelled. JSON numbers are integers.
- HashMap iteration order is an arbitrary order (`KeysInSomeOrder`).
- Strings.ToLowercase: only the ASCII letters are lowered. Rust's `to_lowercase` maps all of Unicode; for example the Kelvin sign U+212A lowers to `k`, so a command spelled with it passes the whitelist in the source but not in the model.
- Strings.Trim: only ASCII white space is trimmed; Rust's `trim` removes every Unicode white-space character.
- The configuration file code of `config.rs` is not part of this model: path resolution, reading and writing, creating, listing and restoring backups, and `get_config_path`. The file is one of five states. A write either succeeds or fails with an error given as `fault`, and a restore is given as its result.
- Commands.RestoreBackup: a failed restore is taken to leave the file as it was, although the source's `fs::copy` can fail after truncating it, and the cache then stays stale.
- Errors.Code: its own contract states only the codes' lengths; that the twelve codes are distinct is the lemma `CodeIdentifiesVariant`.
- Errors.Prefix: its own contract states only the prefixes' lengths; that no prefix begins another is `PrefixesIncomparable`, and that the message determines the error is `MessageInjective`.
- Processes.IsCommandAllowed: it has no contract of its own; what the verdict depends on is stated by the lemmas `AllowedIgnoresCase`, `AllowedIgnoresDirectory`, `AllowedIgnoresExeSuffix`, `WhitelistedNamesAccepted`, `UnlistedNamesRefused`, `ShellsRefused` and `ShortCommandsRefused`.
- State.AppState.SetConfig: a failed write is taken to leave the file as it was, although the source's `fs::write` can fail after truncating the file.
- State.AppState.Valid: the cache is assumed coherent with the file. Nothing but this application writes the file; an outside edit while the cache is filled is not modelled.
- Commands that only forward to a modelled operation with the same arguments are not repeated: `read_config`, `write_config`, `add_server`, `remove_server`, `update_server`, `toggle_server`, `clear_inspector_messages`, `get_registry_servers`, `check_runtime`, `kill_server`, `send_to_server` and `get_running_servers`. `list_backups` belongs to the configuration file code.
- `lib.rs` and the database module only wire plugins and migrations, and are not modelled.
