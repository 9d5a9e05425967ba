/**
  The process manager (src-tauri/src/process_manager.rs): the executable whitelist, the
  registry of secret values and their redaction, the table of running MCP server processes,
  the checks and bookkeeping of spawning one, and what each relayed line of traffic becomes.

  Launching a process, the pipes, the kill signal and the tokio tasks are outside the model:
  the launch result is a parameter, the watchdog's exit is the single step `OnProcessExit`,
  and one relay-loop iteration is one step that returns the event it emits.
*/
module Processes {
  import opened Wrappers
  import opened Errors
  import opened Strings
  import opened Inspector
  import Json
  import State

  // ---------------------------------------------------------------------------
  // Whitelisted executables
  // ---------------------------------------------------------------------------

  const AllowedExecutables: seq<string> :=
    ["npx", "node", "npm", "uvx", "uv", "python", "python3", "pip", "pip3", "docker", "deno", "bun"]

  /** The whitelist as `{:?}` prints it, which the refusal message embeds. */
  const AllowedExecutablesDebug: string :=
    "[\"npx\", \"node\", \"npm\", \"uvx\", \"uv\", \"python\", \"python3\", \"pip\", \"pip3\", \"docker\", \"deno\", \"bun\"]"

  /**
    The executable name `is_command_allowed` compares: lower-cased, the last piece after a
    `/` or `\`, then every trailing ".exe" removed, then every ".cmd", then every ".bat".
  */
  function CommandBase(command: string): (base: string)
    ensures |base| <= |command|
    ensures forall i :: 0 <= i < |base| ==> !IsPathSeparator(base[i]) && !('A' <= base[i] <= 'Z')
    ensures !EndsWith(base, ".bat")
  {
    var segment := LastSegment(ToLowercase(command));
    LowercaseSegment(command);
    TrimmedKeepsPrefix(segment);
    TrimEndMatches(TrimEndMatches(TrimEndMatches(segment, ".exe"), ".cmd"), ".bat")
  }

  /** The last path segment of a lower-cased text holds no ASCII capital. */
  lemma LowercaseSegment(command: string)
    ensures forall i :: 0 <= i < |LastSegment(ToLowercase(command))| ==> !('A' <= LastSegment(ToLowercase(command))[i] <= 'Z')
  {
    LoweredHasNoCapital(command);
    SegmentHasNoCapital(ToLowercase(command));
  }

  predicate NoCapital(s: string)
  {
    forall i :: 0 <= i < |s| ==> !('A' <= s[i] <= 'Z')
  }

  lemma LoweredHasNoCapital(command: string)
    ensures NoCapital(ToLowercase(command))
  {
    var lowered := ToLowercase(command);
    forall i | 0 <= i < |lowered| ensures !('A' <= lowered[i] <= 'Z') {
      LowerCharNotUpper(command[i]);
    }
  }

  lemma LowerCharNotUpper(c: char)
    ensures !('A' <= LowerChar(c) <= 'Z')
  {
  }

  lemma SegmentHasNoCapital(s: string)
    requires NoCapital(s)
    ensures NoCapital(LastSegment(s))
  {
    var segment := LastSegment(s);
    forall i | 0 <= i < |segment| ensures !('A' <= segment[i] <= 'Z') {
      assert segment[i] == s[|s| - |segment| + i];
    }
  }

  /** Removing the three suffixes keeps a prefix of the segment. */
  lemma TrimmedKeepsPrefix(segment: string)
    ensures var base := TrimEndMatches(TrimEndMatches(TrimEndMatches(segment, ".exe"), ".cmd"), ".bat");
            |base| <= |segment| && forall i :: 0 <= i < |base| ==> base[i] == segment[i]
  {
    var noExe := TrimEndMatches(segment, ".exe");
    var noCmd := TrimEndMatches(noExe, ".cmd");
    var base := TrimEndMatches(noCmd, ".bat");
    forall i | 0 <= i < |base| ensures base[i] == segment[i] {
      assert base[i] == noCmd[i] == noExe[i];
    }
  }

  /** `is_command_allowed`: the base of the command is one of the whitelisted names. */
  predicate IsCommandAllowed(command: string)
  {
    CommandBase(command) in AllowedExecutables
  }

  /** The empty command, and any one-character command, is refused. */
  lemma ShortCommandsRefused(command: string)
    requires |command| < 2
    ensures !IsCommandAllowed(command)
  {
    var base := CommandBase(command);
    if base in AllowedExecutables {
      AllowedNameLength(base);
      assert false;
    }
  }

  /** Every whitelisted name has two to seven characters. */
  lemma AllowedNameLength(name: string)
    requires name in AllowedExecutables
    ensures 2 <= |name| <= 7
  {
  }

  lemma LowerCharIdempotent(c: char)
    ensures LowerChar(LowerChar(c)) == LowerChar(c)
  {
  }

  /** The check is case-insensitive: lower-casing the command first changes nothing. */
  lemma {:induction false} AllowedIgnoresCase(command: string)
    ensures IsCommandAllowed(ToLowercase(command)) == IsCommandAllowed(command)
  {
    forall i | 0 <= i < |command| ensures ToLowercase(ToLowercase(command))[i] == ToLowercase(command)[i] {
      LowerCharIdempotent(command[i]);
    }
    assert ToLowercase(ToLowercase(command)) == ToLowercase(command);
  }

  lemma ToLowercaseAppend(s: string, t: string)
    ensures ToLowercase(s + t) == ToLowercase(s) + ToLowercase(t)
  {
    assert forall i | 0 <= i < |s + t| :: ToLowercase(s + t)[i] == (ToLowercase(s) + ToLowercase(t))[i];
  }

  /** Text without separators added at the end stays in the last segment. */
  lemma {:induction false} LastSegmentAppend(s: string, t: string)
    requires forall i :: 0 <= i < |t| ==> !IsPathSeparator(t[i])
    ensures LastSegment(s + t) == LastSegment(s) + t
    decreases |t|
  {
    if t != [] {
      var init, last := t[..|t| - 1], t[|t| - 1];
      assert t == init + [last];
      assert s + t == (s + init) + [last];
      assert (s + t)[..|s + t| - 1] == s + init;
      assert LastSegment(s + t) == LastSegment(s + init) + [last];
      LastSegmentAppend(s, init);
      assert LastSegment(s) + init + [last] == LastSegment(s) + t;
    } else {
      assert s + t == s;
    }
  }

  /** Whatever comes before the last separator does not matter. */
  lemma LastSegmentAfterSeparator(dir: string, sep: char, name: string)
    requires IsPathSeparator(sep)
    requires forall i :: 0 <= i < |name| ==> !IsPathSeparator(name[i])
    ensures LastSegment(dir + [sep] + name) == name
  {
    var s := dir + [sep] + name;
    assert s[|s| - |name|..] == name;
    assert s[|s| - |name| - 1] == sep;
  }

  /** A directory in front of the executable name does not change its base, hence not the verdict. */
  lemma AllowedIgnoresDirectory(dir: string, sep: char, name: string)
    requires IsPathSeparator(sep)
    requires forall i :: 0 <= i < |name| ==> !IsPathSeparator(name[i])
    ensures CommandBase(dir + [sep] + name) == CommandBase(name)
    ensures IsCommandAllowed(dir + [sep] + name) == IsCommandAllowed(name)
  {
    ToLowercaseAppend(dir + [sep], name);
    ToLowercaseAppend(dir, [sep]);
    var lname := ToLowercase(name);
    assert forall i :: 0 <= i < |lname| ==> !IsPathSeparator(lname[i]);
    LastSegmentAfterSeparator(ToLowercase(dir), sep, lname);
    assert ToLowercase([sep]) == [sep];
    LastSegmentAppend([], lname);
    assert [] + lname == lname;
  }

  /** A ".exe" extension does not change the base, hence not the verdict. */
  lemma AllowedIgnoresExeSuffix(command: string)
    ensures CommandBase(command + ".exe") == CommandBase(command)
    ensures IsCommandAllowed(command + ".exe") == IsCommandAllowed(command)
  {
    ToLowercaseAppend(command, ".exe");
    assert ToLowercase(".exe") == ".exe";
    LastSegmentAppend(ToLowercase(command), ".exe");
    TrimEndMatchesAppend(LastSegment(ToLowercase(command)), ".exe");
  }

  /**
    Every whitelisted name is accepted as it is, with ".exe" or ".cmd" appended, and behind
    any directory and either separator (the module's test uses "/usr/bin/node",
    "C:\\Program Files\\node", "node.exe" and "npx.cmd").
  */
  lemma WhitelistedNamesAccepted(name: string, dir: string, sep: char)
    requires name in AllowedExecutables && IsPathSeparator(sep)
    ensures IsCommandAllowed(name) && IsCommandAllowed(name + ".exe") && IsCommandAllowed(name + ".cmd")
    ensures IsCommandAllowed(dir + [sep] + name)
  {
    assert IsPlainName(name);
    BaseOfPlainName(name);
    AllowedIgnoresExeSuffix(name);
    BaseOfCmdName(name);
    AllowedIgnoresDirectory(dir, sep, name);
  }

  /** A plain name that is not whitelisted is refused, with or without ".exe" or a directory. */
  lemma UnlistedNamesRefused(name: string, dir: string, sep: char)
    requires IsPlainName(name) && name !in AllowedExecutables && IsPathSeparator(sep)
    ensures !IsCommandAllowed(name) && !IsCommandAllowed(name + ".exe")
    ensures !IsCommandAllowed(dir + [sep] + name)
  {
    BaseOfPlainName(name);
    AllowedIgnoresExeSuffix(name);
    AllowedIgnoresDirectory(dir, sep, name);
  }

  /** The shells and the destructive command the module's test expects to be refused. */
  const RefusedInTests: seq<string> := ["bash", "sh", "cmd", "powershell", "rm"]

  lemma ShellsRefused()
    ensures forall c :: c in RefusedInTests ==> !IsCommandAllowed(c)
  {
    forall c | c in RefusedInTests ensures !IsCommandAllowed(c) {
      UnlistedNamesRefused(c, "", '/');
    }
  }

  /** A name made of lower-case letters and digits. */
  predicate IsPlainName(name: string)
  {
    forall i :: 0 <= i < |name| ==> 'a' <= name[i] <= 'z' || '0' <= name[i] <= '9'
  }

  lemma PlainNameNoDotSuffix(name: string, suffix: string)
    requires IsPlainName(name) && |suffix| > 0 && suffix[0] == '.'
    ensures !EndsWith(name, suffix)
  {
    if |suffix| <= |name| {
      assert name[|name| - |suffix|..][0] == name[|name| - |suffix|];
    }
  }

  lemma TrimEndMatchesNoMatch(s: string, suffix: string)
    requires suffix != [] && !EndsWith(s, suffix)
    ensures TrimEndMatches(s, suffix) == s
  {
  }

  lemma PlainNameLastSegment(s: string)
    requires forall i :: 0 <= i < |s| ==> !IsPathSeparator(s[i])
    ensures LastSegment(s) == s
  {
    LastSegmentAppend([], s);
    assert [] + s == s;
  }

  /** A plain name is its own base. */
  lemma BaseOfPlainName(name: string)
    requires IsPlainName(name)
    ensures CommandBase(name) == name
  {
    assert ToLowercase(name) == name;
    PlainNameLastSegment(name);
    PlainNameNoDotSuffix(name, ".exe");
    TrimEndMatchesNoMatch(name, ".exe");
    PlainNameNoDotSuffix(name, ".cmd");
    TrimEndMatchesNoMatch(name, ".cmd");
    PlainNameNoDotSuffix(name, ".bat");
    TrimEndMatchesNoMatch(name, ".bat");
  }

  /** `name + ".cmd"` has the same base as a plain `name`. */
  lemma BaseOfCmdName(name: string)
    requires IsPlainName(name)
    ensures CommandBase(name + ".cmd") == name
  {
    var s := name + ".cmd";
    CmdNameSegment(name);
    TrimEndMatchesAppend(name, ".cmd");
    PlainNameNoDotSuffix(name, ".cmd");
    TrimEndMatchesNoMatch(name, ".cmd");
    assert TrimEndMatches(s, ".cmd") == name;
    PlainNameNoDotSuffix(name, ".bat");
    TrimEndMatchesNoMatch(name, ".bat");
  }

  /** For a plain `name`, `name + ".cmd"` is its own last segment and has no ".exe" to trim. */
  lemma CmdNameSegment(name: string)
    requires IsPlainName(name)
    ensures LastSegment(ToLowercase(name + ".cmd")) == name + ".cmd"
    ensures TrimEndMatches(name + ".cmd", ".exe") == name + ".cmd"
  {
    var s := name + ".cmd";
    assert ToLowercase(s) == s;
    PlainNameLastSegment(s);
    assert !EndsWith(s, ".exe") by { assert s[|s| - 3] == 'c'; }
    TrimEndMatchesNoMatch(s, ".exe");
  }

  // ---------------------------------------------------------------------------
  // Secrets and redaction
  // ---------------------------------------------------------------------------

  /** The marker every occurrence of a secret is replaced by. */
  const Redacted: string := "[REDACTED]"

  /** The secret list never holds the empty string and never holds a value twice. */
  predicate SecretsWellFormed(secrets: seq<string>)
  {
    && (forall i :: 0 <= i < |secrets| ==> secrets[i] != [])
    && (forall i, j :: 0 <= i < j < |secrets| ==> secrets[i] != secrets[j])
  }

  /** The list `register_secrets` leaves: each new non-empty value not yet present is pushed in turn. */
  function WithSecrets(current: seq<string>, xs: seq<string>): (r: seq<string>)
    ensures |current| <= |r| <= |current| + |xs| && r[..|current|] == current
    decreases |xs|
  {
    if xs == [] then current
    else
      var next := if xs[0] != [] && xs[0] !in current then current + [xs[0]] else current;
      WithSecrets(next, xs[1..])
  }

  /**
    What registering the `values` does to a secret list `before`, giving `after`: earlier
    entries keep their places, every non-empty value is present afterwards, and every entry
    added is one of the values; a well-formed list stays well-formed.
  */
  ghost predicate RegisteredAfter(before: seq<string>, after: seq<string>, values: set<string>)
  {
    && |before| <= |after| && after[..|before|] == before
    && (forall v :: v in values && v != [] ==> v in after)
    && (forall i :: |before| <= i < |after| ==> after[i] in values)
    && (SecretsWellFormed(before) ==> SecretsWellFormed(after))
  }

  /** Registration only appends, and only values from the list given. */
  lemma {:induction false} WithSecretsExtends(current: seq<string>, xs: seq<string>)
    ensures var after := WithSecrets(current, xs);
            && |current| <= |after| && after[..|current|] == current
            && (forall i :: |current| <= i < |after| ==> after[i] in xs)
    decreases |xs|
  {
    if xs != [] {
      var next := if xs[0] != [] && xs[0] !in current then current + [xs[0]] else current;
      var after := WithSecrets(next, xs[1..]);
      WithSecretsExtends(next, xs[1..]);
      assert after[..|current|] == next[..|current|] == current;
      forall i | |current| <= i < |after| ensures after[i] in xs {
        if i >= |next| {
          assert after[i] in xs[1..];
        } else {
          assert after[i] == next[i] == xs[0];
        }
      }
    }
  }

  /** Every non-empty value given is present after registration. */
  lemma {:induction false} WithSecretsContains(current: seq<string>, xs: seq<string>)
    ensures forall v :: v in xs && v != [] ==> v in WithSecrets(current, xs)
    decreases |xs|
  {
    if xs != [] {
      var next := if xs[0] != [] && xs[0] !in current then current + [xs[0]] else current;
      var after := WithSecrets(next, xs[1..]);
      WithSecretsContains(next, xs[1..]);
      WithSecretsExtends(next, xs[1..]);
      forall v | v in xs && v != [] ensures v in after {
        if v == xs[0] {
          var k := IndexOf(next, v);
          assert after[k] == next[k];
        } else {
          assert v in xs[1..];
        }
      }
    }
  }

  /** Registration keeps the list free of duplicates and of the empty string. */
  lemma {:induction false} WithSecretsWellFormed(current: seq<string>, xs: seq<string>)
    requires SecretsWellFormed(current)
    ensures SecretsWellFormed(WithSecrets(current, xs))
    decreases |xs|
  {
    if xs != [] {
      var next := if xs[0] != [] && xs[0] !in current then current + [xs[0]] else current;
      assert SecretsWellFormed(next);
      WithSecretsWellFormed(next, xs[1..]);
    }
  }

  lemma WithSecretsRegisters(current: seq<string>, xs: seq<string>)
    ensures RegisteredAfter(current, WithSecrets(current, xs), set x | x in xs)
  {
    WithSecretsExtends(current, xs);
    WithSecretsContains(current, xs);
    if SecretsWellFormed(current) {
      WithSecretsWellFormed(current, xs);
    }
  }

  function IndexOf(s: seq<string>, x: string): (i: nat)
    requires x in s
    ensures i < |s| && s[i] == x
  {
    if s[0] == x then 0 else 1 + IndexOf(s[1..], x)
  }

  /** Registering the same values twice adds nothing the second time. */
  lemma {:induction false} WithSecretsIdempotent(current: seq<string>, xs: seq<string>)
    ensures WithSecrets(WithSecrets(current, xs), xs) == WithSecrets(current, xs)
  {
    var once := WithSecrets(current, xs);
    WithSecretsRegisters(current, xs);
    WithSecretsKeepsPresent(once, xs);
  }

  /** Registering values that are all present already, or empty, changes nothing. */
  lemma {:induction false} WithSecretsKeepsPresent(current: seq<string>, xs: seq<string>)
    requires forall x :: x in xs && x != [] ==> x in current
    ensures WithSecrets(current, xs) == current
    decreases |xs|
  {
    if xs != [] {
      assert forall x :: x in xs[1..] ==> x in xs;
      WithSecretsKeepsPresent(current, xs[1..]);
    }
  }

  /**
    The redaction loop: for each secret, in registration order, every occurrence is replaced
    by the marker; the empty string is skipped. A text in which no registered secret occurs
    comes back unchanged.
  */
  function Redact(secrets: seq<string>, content: string): (r: string)
    ensures (forall i :: 0 <= i < |secrets| && secrets[i] != [] ==> !Contains(content, secrets[i])) ==> r == content
    decreases |secrets|
  {
    if secrets == [] then content
    else
      var next := if secrets[0] != [] then Replace(content, secrets[0], Redacted) else content;
      assert secrets[0] != [] && !Contains(content, secrets[0]) ==> next == content by {
        if secrets[0] != [] && !Contains(content, secrets[0]) {
          ReplaceWithoutOccurrence(content, secrets[0], Redacted);
        }
      }
      Redact(secrets[1..], next)
  }

  /** No secrets: redaction is the identity. */
  lemma RedactNothing(content: string)
    ensures Redact([], content) == content
  {
  }

  /** Secrets are applied one after another: the later list works on the earlier list's output. */
  lemma {:induction false} RedactSequential(first: seq<string>, second: seq<string>, content: string)
    ensures Redact(first + second, content) == Redact(second, Redact(first, content))
    decreases |first|
  {
    if first == [] {
      assert first + second == second;
    } else {
      assert (first + second)[1..] == first[1..] + second;
      var next := if first[0] != [] then Replace(content, first[0], Redacted) else content;
      RedactSequential(first[1..], second, next);
    }
  }

  /**
    A line made of one registered secret comes out as the marker, provided no secret
    registered before it occurs in the line and no secret registered after it occurs in the
    marker itself (see `MarkerRewrittenByLaterSecret` for what happens otherwise).
  */
  lemma {:induction false} RedactWholeSecret(before: seq<string>, secret: string, after: seq<string>)
    requires secret != []
    requires forall i :: 0 <= i < |before| && before[i] != [] ==> !Contains(secret, before[i])
    requires forall i :: 0 <= i < |after| && after[i] != [] ==> !Contains(Redacted, after[i])
    ensures Redact(before + [secret] + after, secret) == Redacted
  {
    RedactSequential(before + [secret], after, secret);
    RedactSequential(before, [secret], secret);
    ReplaceAtStart([], secret, Redacted);
    assert secret + [] == secret;
    assert Redact([secret], secret) == Redacted;
  }

  /**
    The marker is itself text that later secrets are searched in: a secret registered later
    that occurs in "[REDACTED]" (such as "RED") rewrites the marker, so a line made of an
    earlier secret no longer comes out as the marker.
  */
  lemma MarkerRewrittenByLaterSecret(secret: string, later: string)
    requires secret != [] && later != [] && |later| < |Redacted| && Contains(Redacted, later)
    ensures Redact([secret, later], secret) != Redacted
  {
    RedactWholeSecret([], secret, []);
    assert [] + [secret] + [] == [secret];
    RedactSequential([secret], [later], secret);
    assert [secret] + [later] == [secret, later];
    ReplaceGrows(Redacted, later, Redacted);
  }

  /** The loop the relay tasks and `redact_secrets` run over a secrets list. */
  method RedactLine(secrets: seq<string>, line: string) returns (redacted: string)
    ensures redacted == Redact(secrets, line)
  {
    redacted := line;
    var i := 0;
    while i < |secrets|
      invariant 0 <= i <= |secrets|
      invariant Redact(secrets[i..], redacted) == Redact(secrets, line)
    {
      if secrets[i] != [] {
        redacted := Replace(redacted, secrets[i], Redacted);
      }
      assert secrets[i..][1..] == secrets[i + 1..];
      i := i + 1;
    }
  }

  // ---------------------------------------------------------------------------
  // The process table
  // ---------------------------------------------------------------------------

  /**
    An active process. The channels are not modelled; `relaySecrets` is the copy of the
    secret list the relay tasks took when the process was spawned.
  */
  datatype ActiveProcess = ActiveProcess(serverName: string, pid: nat, relaySecrets: seq<string>)

  /** The keys of a map in some order (that of a `HashMap` iteration), each once. */
  method KeysInSomeOrder<K, V>(m: map<K, V>) returns (keys: seq<K>)
    ensures forall k :: k in keys <==> k in m
    ensures |keys| == |m|
    ensures forall i, j :: 0 <= i < j < |keys| ==> keys[i] != keys[j]
  {
    keys := [];
    var rest := m.Keys;
    while rest != {}
      invariant rest <= m.Keys
      invariant forall k :: k in keys <==> k in m && k !in rest
      invariant |keys| + |rest| == |m.Keys|
      invariant forall i, j :: 0 <= i < j < |keys| ==> keys[i] != keys[j]
      decreases rest
    {
      var k :| k in rest;
      keys := keys + [k];
      rest := rest - {k};
    }
  }

  /** The result of asking the OS to launch the process. */
  datatype LaunchOutcome =
    | SpawnFailed(reason: string)   // `Command::spawn` failed
    | NoPid                         // the child has no process id
    | Launched(pid: nat)

  class ProcessManager {
    var processes: map<string, ActiveProcess>
    var secrets: seq<string>

    ghost predicate Valid()
      reads this
    {
      && SecretsWellFormed(secrets)
      && forall n :: n in processes ==> processes[n].serverName == n
    }

    /** `ProcessManager::new()`. */
    constructor ()
      ensures Valid() && processes == map[] && secrets == []
    {
      processes := map[];
      secrets := [];
    }

    /** `register_secrets`: push each non-empty value that is not in the list yet. */
    method RegisterSecrets(values: seq<string>)
      requires Valid()
      modifies this`secrets
      ensures Valid()
      ensures secrets == WithSecrets(old(secrets), values)
      ensures RegisteredAfter(old(secrets), secrets, set v | v in values)
    {
      WithSecretsRegisters(secrets, values);
      var i := 0;
      while i < |values|
        invariant 0 <= i <= |values|
        invariant WithSecrets(secrets, values[i..]) == WithSecrets(old(secrets), values)
      {
        var secret := values[i];
        if secret != [] && secret !in secrets {
          secrets := secrets + [secret];
        }
        assert values[i..][1..] == values[i + 1..];
        i := i + 1;
      }
    }

    /** `redact_secrets`: the content with the registered secrets redacted. */
    method RedactSecrets(content: string) returns (r: string)
      ensures r == Redact(secrets, content)
    {
      r := RedactLine(secrets, content);
    }

    /** `is_running`: the name has an entry in the table. */
    predicate IsRunning(serverName: string)
      reads this
    {
      serverName in processes
    }

    /**
      `kill_process`: a running process's entry is removed (and its kill signal sent); for a
      name with no entry this is an error and the table stays as it is.
    */
    method KillProcess(serverName: string) returns (r: Result<()>)
      requires Valid()
      modifies this`processes
      ensures Valid()
      ensures r.Ok? <==> old(IsRunning(serverName))
      ensures r.Ok? ==> processes == old(processes) - {serverName}
      ensures r.Err? ==> r.error == ProcessError("Process not found: " + serverName) && processes == old(processes)
      ensures !IsRunning(serverName)
    {
      if serverName in processes {
        processes := processes - {serverName};
        r := Ok(());
      } else {
        r := Err(ProcessError("Process not found: " + serverName));
      }
    }

    /** `kill_all`: every entry is drained. */
    method KillAll()
      requires Valid()
      modifies this`processes
      ensures Valid() && processes == map[]
    {
      processes := map[];
    }

    /**
      `send_to_stdin`: hand the data to the process's stdin channel. An unknown name is an
      error; so is a channel whose receiving task has ended (`delivered` is false). The table
      is never changed.
    */
    method SendToStdin(serverName: string, data: string, delivered: bool) returns (r: Result<()>)
      ensures r.Ok? <==> serverName in processes && delivered
      ensures serverName !in processes ==> r == Err(ProcessError("Process not found: " + serverName))
      ensures serverName in processes && !delivered ==> r == Err(ProcessError("Failed to send: channel closed"))
    {
      if serverName in processes {
        if delivered {
          r := Ok(());
        } else {
          r := Err(ProcessError("Failed to send: channel closed"));
        }
      } else {
        r := Err(ProcessError("Process not found: " + serverName));
      }
    }

    /** `list_running`: the names in the table, each once. */
    method ListRunning() returns (names: seq<string>)
      ensures forall n :: n in names <==> IsRunning(n)
      ensures |names| == |processes|
      ensures forall i, j :: 0 <= i < j < |names| ==> names[i] != names[j]
    {
      names := KeysInSomeOrder(processes);
    }

    /** The watchdog, after the process exited or was killed: drop the name's entry. */
    method OnProcessExit(serverName: string)
      requires Valid()
      modifies this`processes
      ensures Valid() && processes == old(processes) - {serverName}
    {
      processes := processes - {serverName};
    }
  }

  /** The values of the environment map, in the order of its iteration. */
  method EnvValues(env: map<string, string>) returns (values: seq<string>)
    ensures (set v | v in values) == env.Values
  {
    var keys := KeysInSomeOrder(env);
    values := seq(|keys|, i requires 0 <= i < |keys| => env[keys[i]]);
    forall v | v in env.Values ensures v in values {
      var k :| k in env && env[k] == v;
      var i :| 0 <= i < |keys| && keys[i] == k;
      assert values[i] == v;
    }
  }

  /**
    What `spawn_mcp_server` does to a process table and a secret list (`processes`, `secrets`
    before; `processes'`, `secrets'` after) and what it returns. A command off the whitelist
    and a name that is already running are refused before any change. Otherwise the
    environment values are registered as secrets, which stay registered whatever the launch
    gives; a failed launch returns its error and leaves the table as it was, and a launched
    process is entered under its name with its pid and a copy of the secrets for its relays.
  */
  ghost predicate SpawnEffect(processes: map<string, ActiveProcess>, secrets: seq<string>,
                              processes': map<string, ActiveProcess>, secrets': seq<string>,
                              serverName: string, command: string, env: map<string, string>,
                              launch: LaunchOutcome, r: Result<nat>)
  {
    && (!IsCommandAllowed(command) ==>
          && r == Err(ProcessError("Command not allowed: " + command + ". Allowed: " + AllowedExecutablesDebug))
          && processes' == processes && secrets' == secrets)
    && (IsCommandAllowed(command) && serverName in processes ==>
          && r == Err(ProcessError("Server already running: " + serverName))
          && processes' == processes && secrets' == secrets)
    && (IsCommandAllowed(command) && serverName !in processes ==>
          && RegisteredAfter(secrets, secrets', env.Values)
          && (launch.SpawnFailed? ==> r == Err(ProcessError("Failed to spawn: " + launch.reason)) && processes' == processes)
          && (launch.NoPid? ==> r == Err(ProcessError("Failed to get PID")) && processes' == processes)
          && (launch.Launched? ==>
                r == Ok(launch.pid) && processes' == processes[serverName := ActiveProcess(serverName, launch.pid, secrets')]))
  }

  /**
    `spawn_mcp_server` up to the point where the tasks are started; the pid is the result.
    Success means the name is running.
  */
  method SpawnMcpServer(pm: ProcessManager, serverName: string, command: string,
                        env: map<string, string>, launch: LaunchOutcome) returns (r: Result<nat>)
    requires pm.Valid()
    modifies pm
    ensures pm.Valid()
    ensures SpawnEffect(old(pm.processes), old(pm.secrets), pm.processes, pm.secrets, serverName, command, env, launch, r)
    ensures r.Ok? <==> IsCommandAllowed(command) && !old(pm.IsRunning(serverName)) && launch.Launched?
    ensures r.Ok? ==> pm.IsRunning(serverName)
  {
    if !IsCommandAllowed(command) {
      return Err(ProcessError("Command not allowed: " + command + ". Allowed: " + AllowedExecutablesDebug));
    }
    if pm.IsRunning(serverName) {
      return Err(ProcessError("Server already running: " + serverName));
    }
    r := RegisterAndLaunch(pm, serverName, env, launch);
  }

  /**
    The part of `spawn_mcp_server` after both checks passed: register the environment values
    as secrets, then launch; a launched process is entered with a copy of the secrets.
  */
  method RegisterAndLaunch(pm: ProcessManager, serverName: string, env: map<string, string>,
                           launch: LaunchOutcome) returns (r: Result<nat>)
    requires pm.Valid() && serverName !in pm.processes
    modifies pm
    ensures pm.Valid()
    ensures RegisteredAfter(old(pm.secrets), pm.secrets, env.Values)
    ensures launch.SpawnFailed? ==> r == Err(ProcessError("Failed to spawn: " + launch.reason)) && pm.processes == old(pm.processes)
    ensures launch.NoPid? ==> r == Err(ProcessError("Failed to get PID")) && pm.processes == old(pm.processes)
    ensures launch.Launched? ==>
      r == Ok(launch.pid) && pm.processes == old(pm.processes)[serverName := ActiveProcess(serverName, launch.pid, pm.secrets)]
  {
    var values := EnvValues(env);
    pm.RegisterSecrets(values);
    match launch {
      case SpawnFailed(reason) =>
        r := Err(ProcessError("Failed to spawn: " + reason));
      case NoPid =>
        r := Err(ProcessError("Failed to get PID"));
      case Launched(pid) =>
        var relaySecrets := pm.secrets;
        pm.processes := pm.processes[serverName := ActiveProcess(serverName, pid, relaySecrets)];
        r := Ok(pid);
    }
  }

  // ---------------------------------------------------------------------------
  // Relayed traffic
  // ---------------------------------------------------------------------------

  datatype Direction = Outgoing | Incoming | Stderr

  function DirectionLabel(d: Direction): string
  {
    match d
    case Outgoing => "OUTGOING"
    case Incoming => "INCOMING"
    case Stderr => "STDERR"
  }

  /** `McpTrafficEvent`, the "mcp-traffic" event sent to the frontend. */
  datatype TrafficEvent = TrafficEvent(serverId: string, timestamp: string, direction: string,
                                       content: string, messageId: string)

  /**
    One iteration of the stdin writer task of a running process: the event shows the data
    with the secrets copied at spawn time redacted, while the process receives the original
    data and a newline.
  */
  method StdinWriterStep(pm: ProcessManager, serverName: string, data: string,
                         now: string, messageId: string) returns (event: TrafficEvent, written: string)
    requires serverName in pm.processes
    ensures event == TrafficEvent(serverName, now, "OUTGOING", Redact(pm.processes[serverName].relaySecrets, data), messageId)
    ensures written == data + "\n"
  {
    var redacted := RedactLine(pm.processes[serverName].relaySecrets, data);
    event := TrafficEvent(serverName, now, DirectionLabel(Outgoing), redacted, messageId);
    written := data + "\n";
  }

  /**
    One iteration of the stdout reader task of a running process: the event shows the line
    with the secrets copied at spawn time redacted; a line that parses as JSON is also stored,
    unredacted, as a response message of the server in the inspector state.
  */
  method StdoutReaderStep(app: State.AppState, pm: ProcessManager, parse: string -> Option<Json.Json>,
                          serverName: string, line: string, now: string, messageId: string,
                          inspectorId: string) returns (event: TrafficEvent)
    requires serverName in pm.processes
    modifies app`inspectorMessages
    ensures event == TrafficEvent(serverName, now, "INCOMING", Redact(pm.processes[serverName].relaySecrets, line), messageId)
    ensures parse(line).None? ==> app.inspectorMessages == old(app.inspectorMessages)
    ensures parse(line).Some? ==>
      app.GetInspectorMessages(serverName)
        == old(app.GetInspectorMessages(serverName)) + [NewResponse(serverName, parse(line).value, inspectorId, now)]
    ensures forall n :: n != serverName ==> app.GetInspectorMessages(n) == old(app.GetInspectorMessages(n))
  {
    var redacted := RedactLine(pm.processes[serverName].relaySecrets, line);
    event := TrafficEvent(serverName, now, DirectionLabel(Incoming), redacted, messageId);
    match parse(line) {
      case None =>
      case Some(payload) =>
        var msg := NewResponse(serverName, payload, inspectorId, now);
        app.AddInspectorMessage(serverName, msg);
    }
  }

  /** One iteration of the stderr reader task: the event carries the raw line, nothing redacted. */
  function StderrEvent(serverName: string, line: string, now: string, messageId: string): (event: TrafficEvent)
    ensures event.content == line && event.direction == "STDERR" && event.serverId == serverName
  {
    TrafficEvent(serverName, now, DirectionLabel(Stderr), line, messageId)
  }
}
