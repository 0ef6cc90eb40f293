/** The start of `spawn_clients` (parse every token, write a placeholder per host, pick each
    host's command) and the parsing of the `--exec` overrides in `main`. */
module Startup {
  import opened Wrappers
  import opened Text
  import opened HostToken
  import opened Status

  /** The command a host runs when no override names it. */
  const DefaultCommand: string := "gpustat --color --force-color"

  /** What `main` appends to every overriding command. */
  const ColorFlags: string := " --color --force-color"

  /** The placeholder message every host shows before its first poll. */
  const LoadingMessage: string := "Loading ..."

  /** One `run_client` launch: the parsed endpoint and the command it runs. */
  datatype Launch = Launch(spec: HostSpec, command: string)

  /** What aborts the startup: a malformed token, or an empty host list, on which unpacking
      `zip(*parsed_hosts)` into three names raises. */
  datatype StartupError = BadToken(error: ParseError) | NoHosts

  /** Token `i` is the first that does not parse. */
  predicate FirstFailureAt(tokens: seq<string>, defaultPort: int, i: int)
  {
    && 0 <= i < |tokens|
    && ParseHostString(tokens[i], defaultPort).Failure?
    && forall j :: 0 <= j < i ==> ParseHostString(tokens[j], defaultPort).Success?
  }

  /** A first failure in the tail, behind a head that parses, is the first failure of all. */
  lemma FirstFailureAfterHead(tokens: seq<string>, defaultPort: int, i: int)
    requires tokens != [] && ParseHostString(tokens[0], defaultPort).Success?
    requires FirstFailureAt(tokens[1..], defaultPort, i)
    ensures FirstFailureAt(tokens, defaultPort, i + 1) && tokens[i + 1] == tokens[1..][i]
  {
    assert forall j :: 1 <= j < i + 1 ==> tokens[j] == tokens[1..][j - 1];
  }

  /** `[_parse_host_string(host) for host in hosts]`: the first malformed token raises. */
  function ParseAll(tokens: seq<string>, defaultPort: int): (r: Result<seq<HostSpec>, ParseError>)
    ensures r.Success? <==> forall i :: 0 <= i < |tokens| ==> ParseHostString(tokens[i], defaultPort).Success?
    ensures r.Success? ==> |r.value| == |tokens|
    ensures r.Success? ==>
              forall i :: 0 <= i < |tokens| ==> r.value[i] == ParseHostString(tokens[i], defaultPort).value
    ensures r.Failure? ==>
              exists i :: FirstFailureAt(tokens, defaultPort, i) && ParseHostString(tokens[i], defaultPort) == Failure(r.error)
  {
    if tokens == [] then Success([])
    else
      match ParseHostString(tokens[0], defaultPort)
      case Failure(e) => Failure(e)
      case Success(spec) =>
        match ParseAll(tokens[1..], defaultPort)
        case Failure(e) =>
          assert exists i :: FirstFailureAt(tokens, defaultPort, i) && ParseHostString(tokens[i], defaultPort) == Failure(e) by {
            var i :| FirstFailureAt(tokens[1..], defaultPort, i) && ParseHostString(tokens[1..][i], defaultPort) == Failure(e);
            FirstFailureAfterHead(tokens, defaultPort, i);
          }
          Failure(e)
        case Success(specs) => Success([spec] + specs)
  }

  /** `exec_cmds.get(hostname, "gpustat --color --force-color")` */
  function CommandFor(execCmds: map<string, string>, host: string): (cmd: string)
    ensures host in execCmds ==> cmd == execCmds[host]
    ensures host !in execCmds ==> cmd == DefaultCommand
  {
    if host in execCmds then execCmds[host] else DefaultCommand
  }

  /** The host names of the parsed tokens, in token order. */
  function Names(specs: seq<HostSpec>): (names: seq<string>)
    ensures |names| == |specs| && forall i :: 0 <= i < |specs| ==> names[i] == specs[i].host
  {
    seq(|specs|, i requires 0 <= i < |specs| => specs[i].host)
  }

  /** The key order after assigning each name in turn. */
  function AddKeys(keys: seq<string>, names: seq<string>): seq<string>
    decreases |names|
  {
    if names == [] then keys else AddKey(AddKeys(keys, names[..|names| - 1]), names[|names| - 1])
  }

  /** The status map after a placeholder message for each name in turn. */
  function WithPlaceholders(st: map<string, string>, names: seq<string>, colored: Colorizer)
    : map<string, string>
    decreases |names|
  {
    if names == [] then st
    else
      var host := names[|names| - 1];
      WithPlaceholders(st, names[..|names| - 1], colored)[host := MessageEntry(host, LoadingMessage, colored)]
  }

  /** Placeholders cover exactly the named hosts, each with its own label, and leave every
      other entry as it was. */
  lemma {:induction false} PlaceholdersCover(st: map<string, string>, names: seq<string>, colored: Colorizer)
    ensures forall h :: h in WithPlaceholders(st, names, colored) <==> h in st || h in names
    ensures forall h :: h in names ==>
              WithPlaceholders(st, names, colored)[h] == MessageEntry(h, LoadingMessage, colored)
    ensures forall h :: h in st && h !in names ==> WithPlaceholders(st, names, colored)[h] == st[h]
    decreases |names|
  {
    if names != [] {
      var init := names[..|names| - 1];
      PlaceholdersCover(st, init, colored);
      assert forall h :: h in names <==> h in init || h == names[|names| - 1];
    }
  }

  /** Assigning the names in turn keeps the old keys first and in place, adds every new
      name, and never duplicates a key: repeated host names collapse to one entry. */
  lemma {:induction false} AddKeysShape(keys: seq<string>, names: seq<string>)
    requires Distinct(keys)
    ensures var r := AddKeys(keys, names);
      && Distinct(r)
      && keys <= r
      && (forall h :: h in r <==> h in keys || h in names)
    decreases |names|
  {
    if names != [] {
      var init := names[..|names| - 1];
      AddKeysShape(keys, init);
      assert forall h :: h in names <==> h in init || h == names[|names| - 1];
    }
  }

  /** One launch per parsed token, each with its host's command. */
  function Launches(specs: seq<HostSpec>, execCmds: map<string, string>): (ls: seq<Launch>)
    ensures |ls| == |specs|
    ensures forall i :: 0 <= i < |specs| ==> ls[i].spec == specs[i] && ls[i].command == CommandFor(execCmds, specs[i].host)
  {
    seq(|specs|, k requires 0 <= k < |specs| => Launch(specs[k], CommandFor(execCmds, specs[k].host)))
  }

  /** The loop of `host_set_message(hostname, "Loading ...")` over the host names. */
  method WritePlaceholders(ctx: Context, names: seq<string>, colored: Colorizer)
    requires ctx.Valid()
    modifies ctx
    ensures ctx.Valid()
    ensures ctx.hostStatus == WithPlaceholders(old(ctx.hostStatus), names, colored)
    ensures ctx.hosts == AddKeys(old(ctx.hosts), names)
    ensures old(ctx.NewlineTerminated()) ==> ctx.NewlineTerminated()
  {
    ghost var st0, keys0, terminated0 := ctx.hostStatus, ctx.hosts, ctx.NewlineTerminated();
    var i := 0;
    while i < |names|
      invariant 0 <= i <= |names|
      invariant ctx.Valid()
      invariant ctx.hostStatus == WithPlaceholders(st0, names[..i], colored)
      invariant ctx.hosts == AddKeys(keys0, names[..i])
      invariant terminated0 ==> ctx.NewlineTerminated()
    {
      assert names[..i + 1][..i] == names[..i];
      ctx.SetMessage(names[i], LoadingMessage, colored);
      i := i + 1;
    }
    assert names[..i] == names;
  }

  /** The startup of `spawn_clients`: all tokens are parsed before the store is touched, so
      a malformed token or an empty list leaves it unchanged; otherwise every host gets a
      placeholder entry and one launch per token is returned, in token order. */
  method SpawnClients(ctx: Context, tokens: seq<string>, execCmds: map<string, string>,
                      defaultPort: int, colored: Colorizer)
    returns (r: Result<seq<Launch>, StartupError>)
    requires ctx.Valid()
    modifies ctx
    ensures ctx.Valid()
    ensures r.Failure? <==> tokens == [] || ParseAll(tokens, defaultPort).Failure?
    ensures r.Failure? ==> ctx.hostStatus == old(ctx.hostStatus) && ctx.hosts == old(ctx.hosts)
    ensures r.Failure? && ParseAll(tokens, defaultPort).Failure? ==>
              r.error == BadToken(ParseAll(tokens, defaultPort).error)
    ensures r.Success? ==> r.value == Launches(ParseAll(tokens, defaultPort).value, execCmds)
    ensures r.Success? ==>
              ctx.hostStatus == WithPlaceholders(old(ctx.hostStatus), Names(ParseAll(tokens, defaultPort).value), colored)
    ensures r.Success? ==> ctx.hosts == AddKeys(old(ctx.hosts), Names(ParseAll(tokens, defaultPort).value))
    ensures r.Success? ==> |r.value| == |tokens|
    ensures r.Success? ==> forall i :: 0 <= i < |tokens| ==>
              && r.value[i].spec == ParseHostString(tokens[i], defaultPort).value
              && r.value[i].command == CommandFor(execCmds, r.value[i].spec.host)
              && r.value[i].spec.host in ctx.hostStatus
              && ctx.hostStatus[r.value[i].spec.host] == MessageEntry(r.value[i].spec.host, LoadingMessage, colored)
    ensures old(ctx.NewlineTerminated()) ==> ctx.NewlineTerminated()
  {
    var parsed := ParseAll(tokens, defaultPort);
    if parsed.Failure? {
      return Failure(BadToken(parsed.error));
    }
    var specs := parsed.value;
    if specs == [] {
      return Failure(NoHosts);
    }
    WritePlaceholders(ctx, Names(specs), colored);
    PlaceholdersCover(old(ctx.hostStatus), Names(specs), colored);
    forall i | 0 <= i < |specs|
      ensures specs[i].host in Names(specs)
    {
      assert Names(specs)[i] == specs[i].host;
    }
    r := Success(Launches(specs, execCmds));
  }

  /** One `--exec` argument, `IP:command`, split at its first colon; None where the
      unpacking `ip, cmd = entry.split(":", 1)` raises. */
  function ExecOverride(entry: string): (r: Option<(string, string)>)
    ensures r.None? <==> ':' !in entry
    ensures r.Some? ==> ':' !in r.value.0 && entry == r.value.0 + ":" + r.value.1
  {
    SplitFirst(entry, ':')
  }

  /** The `exec_cmds` dictionary built from well-formed entries: later entries for the same
      host replace earlier ones. */
  function ExecTable(entries: seq<string>): map<string, string>
    requires forall i :: 0 <= i < |entries| ==> ':' in entries[i]
    decreases |entries|
  {
    if entries == [] then map[]
    else
      var (ip, cmd) := ExecOverride(entries[|entries| - 1]).value;
      ExecTable(entries[..|entries| - 1])[ip := cmd + ColorFlags]
  }

  /** The table maps exactly the hosts that some entry names, each to the command of the
      last entry naming it with the colour flags appended. */
  lemma {:induction false} ExecTableLastWins(entries: seq<string>, i: nat)
    requires forall k :: 0 <= k < |entries| ==> ':' in entries[k]
    requires i < |entries|
    requires forall k :: i < k < |entries| ==>
               ExecOverride(entries[k]).value.0 != ExecOverride(entries[i]).value.0
    ensures var (ip, cmd) := ExecOverride(entries[i]).value;
      ip in ExecTable(entries) && ExecTable(entries)[ip] == cmd + ColorFlags
    decreases |entries|
  {
    if i < |entries| - 1 {
      var init := entries[..|entries| - 1];
      assert init[i] == entries[i];
      ExecTableLastWins(init, i);
    }
  }

  /** A host that some `--exec` entry names runs the command of the last such entry, with
      the colour flags appended. */
  lemma CommandFromLastEntry(entries: seq<string>, host: string, i: nat)
    requires forall k :: 0 <= k < |entries| ==> ':' in entries[k]
    requires i < |entries| && ExecOverride(entries[i]).value.0 == host
    requires forall k :: i < k < |entries| ==> ExecOverride(entries[k]).value.0 != host
    ensures CommandFor(ExecTable(entries), host) == ExecOverride(entries[i]).value.1 + ColorFlags
  {
    ExecTableLastWins(entries, i);
  }

  /** A host that no `--exec` entry names runs `gpustat --color --force-color`. */
  lemma CommandWithoutEntry(entries: seq<string>, host: string)
    requires forall k :: 0 <= k < |entries| ==> ':' in entries[k]
    requires forall k :: 0 <= k < |entries| ==> ExecOverride(entries[k]).value.0 != host
    ensures CommandFor(ExecTable(entries), host) == DefaultCommand
  {
    if host in ExecTable(entries) {
      ExecTableKeys(entries, host);
    }
  }

  /** Every key of the table is the host of some entry. */
  lemma {:induction false} ExecTableKeys(entries: seq<string>, ip: string)
    requires forall k :: 0 <= k < |entries| ==> ':' in entries[k]
    requires ip in ExecTable(entries)
    ensures exists k :: 0 <= k < |entries| && ExecOverride(entries[k]).value.0 == ip
    decreases |entries|
  {
    var last := |entries| - 1;
    if ExecOverride(entries[last]).value.0 != ip {
      var init := entries[..last];
      ExecTableKeys(init, ip);
      var k :| 0 <= k < |init| && ExecOverride(init[k]).value.0 == ip;
      assert entries[k] == init[k];
    }
  }

  datatype ExecError = MissingColon(entry: string)

  /** The `--exec` loop of `main`: the first entry without a colon raises, otherwise every
      entry is entered into the table in order. */
  method ParseExecOverrides(entries: seq<string>) returns (r: Result<map<string, string>, ExecError>)
    ensures r.Failure? <==> exists k :: 0 <= k < |entries| && ':' !in entries[k]
    ensures r.Failure? ==> ':' !in r.error.entry && r.error.entry in entries
    ensures r.Success? ==> r.value == ExecTable(entries)
  {
    var execCmds: map<string, string> := map[];
    var i := 0;
    while i < |entries|
      invariant 0 <= i <= |entries|
      invariant forall k :: 0 <= k < i ==> ':' in entries[k]
      invariant execCmds == ExecTable(entries[..i])
    {
      var split := ExecOverride(entries[i]);
      if split.None? {
        return Failure(MissingColon(entries[i]));
      }
      var (ip, cmd) := split.value;
      assert entries[..i + 1][..i] == entries[..i];
      execCmds := execCmds[ip := cmd + ColorFlags];
      i := i + 1;
    }
    assert entries[..i] == entries;
    r := Success(execCmds);
  }
}
