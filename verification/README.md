# gpustat-web core, modelled in Dafny

gpustat-web is a small web server. It polls `gpustat` on a fleet of machines over SSH and
serves the collected status as HTML, ANSI text or plain text. All of it lives in
`gpustat_web/app.py`. This project models the sequential core of that file and proves
properties of the model:

- **Host tokens** (`HostToken`, `HostTokenFacts`). `_parse_host_string` turns a
  `[user@]host[:port]` token into a user, a host and a port.
  - The regular expression is modelled by its meaning under Python's `re.match`: the match
    is anchored at the start, every group is greedy, the optional groups are taken
    whenever they can be, and trailing text is ignored.
  - `IsLeftmostMatch` states that meaning declaratively. `MatchHost` computes it: a computed match
    is the declarative one, a declarative match means `MatchHost` finds one, and at most
    one match satisfies the declaration.
  - Backtracking is covered: `ab@` is a bare host `ab@`, and so is `a.b@h`.
- **The status store** (`Status.Context`). `Context.host_status` is an insertion-ordered
  map, modelled as a class holding the key order and a key-to-text map.
  - `host_set_message` and the direct write on a successful poll replace one entry.
  - A replaced entry keeps its key's position.
  - Every entry ends with a line break, and every writer keeps that invariant.
- **Rendering** (`Status.RenderBody`, `Ansi`). `render_gpustat_body` concatenates the
  non-empty entries the node filter admits, in key order.
  - Plain mode removes the escape sequences that `RE_ANSI` matches. These are the ESC Fe
    sequences of section 5.3 of ECMA-48 and the control sequences of section 5.4.
  - Those sequences form a prefix-free code and never contain a line break, so stripping
    a rendering equals rendering the entries stripped one by one.
  - Stripping is not idempotent.
- **The per-host supervisor** (`Supervisor`). `run_client` becomes a state machine with
  three phases: Connecting, Polling and Backoff. It is driven by the outcomes of its I/O:
  connect ok or failed, a command result, a run failure (a timeout or a dropped
  transport), and the end of the backoff sleep.
  - `RunClient` runs one supervisor over a finite prefix of its outcomes.
  - `RunFleet` runs the `asyncio.gather` fleet over one interleaving of them.
  - However the fleet's outcomes interleave, the entry of each host that exactly one
    supervisor polls is what that supervisor alone would leave. A host token given twice
    starts two supervisors on one key, and their writes then mix.
- **Startup** (`Startup`). `spawn_clients` parses every token before it touches the store,
  writes a `Loading ...` placeholder per host, and picks each host's command. The `--exec`
  overrides of `main` are modelled with it.
- **Request options** (`Query`). These are `_parse_querystring_list` for the `nodes` filter
  and the `full` flag rule.

`termcolor.colored` and `ansi2html`'s converter are kept uninterpreted. They are parameters
of type `Colorizer` and `HtmlConverter`, so every property holds whatever they return.

Startup is all-or-nothing. A malformed host token is not skipped: the list comprehension at
`gpustat_web/app.py:105` raises on the first bad token, and the handler at line 124 catches
it, so no host gets a placeholder or a supervisor. `Startup.SpawnClients` models that.

## Model

| member | source | states |
|---|---|---|
| Text.Strip | gpustat_web/app.py:74 | `str.strip()`: the result is an infix of the input with only whitespace (Python's `isspace` set) around it and none at either of its own ends |
| Text.StripUnique | gpustat_web/app.py:178 | any infix with whitespace around it and none at its ends is the strip: `strip` is fully determined by those conditions |
| Text.Split | gpustat_web/app.py:178 | `str.split(sep)`: at least one part, no part holds the separator, joining the parts with it gives the input back, and the first part runs up to the first separator |
| Text.SplitJoin | gpustat_web/app.py:178 | splitting inverts joining for separator-free parts |
| Text.FirstLine | gpustat_web/app.py:69 | `stderr.split('\n')[0]` is a line-break-free prefix that ends at the first line break or at the end |
| Text.SplitFirst | gpustat_web/app.py:309 | `split(":", 1)` gives two parts exactly when a colon is present; the head holds no colon and head + colon + tail is the input |
| Text.SplitFirstAt | gpustat_web/app.py:309 | splitting `a + sep + b` at its first separator gives back `a` and `b` when `a` holds no separator |
| Text.NatToString | gpustat_web/app.py:101 | decimal digits without a leading zero whose `int()` value is the number |
| Text.IntToString | gpustat_web/app.py:70 | the exit status in decimal: a leading minus exactly for negative numbers, then digits without a leading zero whose value is the magnitude, and no other character |
| HostToken.MatchHost | gpustat_web/app.py:95-97 | the pattern fails, or leaves the host group empty, exactly on an empty token or one starting with `:` |
| HostToken.UserAlternativeLength | gpustat_web/app.py:95 | the optional `user@` alternative can only match with the greedy run of `[\w-]` as its user |
| HostToken.MatchHostPortIsHostPortMatch | gpustat_web/app.py:95 | the computed host and port groups are the greedy `[^:]+` and the greedy optional `:\d+` |
| HostToken.UserGroupTaken | gpustat_web/app.py:95 | when `[\w-]+@` and a host character match at the greedy length, the match takes that user group |
| HostToken.UserGroupSkipped | gpustat_web/app.py:95 | when the user alternative fails at the greedy length it fails at every length, and the match has no user group |
| HostToken.MatchHostIsLeftmost | gpustat_web/app.py:95 | whenever a match exists, it is the match Python's backtracking matcher reports |
| HostToken.DeclarativeMatchImpliesSome | gpustat_web/app.py:95 | whenever the pattern can match the token at all, `MatchHost` returns a match |
| HostToken.HostPortMatchUnique | gpustat_web/app.py:95 | the host and port groups are determined by the text after the user part |
| HostToken.LeftmostMatchUnique | gpustat_web/app.py:95 | there is only one such match |
| HostToken.ParseHostString | gpustat_web/app.py:93-102 | `ValueError("Invalid host format: …")` exactly on an empty token or one starting with `:`; otherwise a non-empty colon-free host and a non-empty user made of `[\w-]` |
| HostTokenFacts.ParseFormatted | gpustat_web/app.py:95-102 | `user@host:port` parses back to exactly that user, host and port |
| HostTokenFacts.ParseWithoutPort | gpustat_web/app.py:101 | `user@host` takes the default port |
| HostTokenFacts.ParseBareHost | gpustat_web/app.py:99-101 | a bare host takes user `netdb` and the default port |
| HostTokenFacts.PortFollowsFirstColon | gpustat_web/app.py:95-101 | when there is a port group, the token's first colon is followed by a digit |
| HostTokenFacts.ParseDefaults | gpustat_web/app.py:99-101 | the user is `netdb` whenever the user alternative cannot match; the port is the default whenever the token has no colon, or its first colon is last or followed by a non-digit (`node:`, `node:abc`) |
| HostTokenFacts.ParseIgnoresTrailingText | gpustat_web/app.py:95 | the token parses as the text the pattern consumed: what follows is ignored |
| HostTokenFacts.SampleTokens | gpustat_web/app.py:95-102 | `alice@node1:2222` gives (alice, node1, 2222) and `node2` gives (netdb, node2, 22) |
| HostTokenFacts.BacktrackingTokens | gpustat_web/app.py:95-100 | `ab@` is host `ab@` and `a.b@h` is host `a.b@h`, both with user `netdb` |
| Ansi.EscapeLen | gpustat_web/app.py:34 | the match length fits the text; a match starts with ESC and is at least two characters long; a longer match is `ESC [` and ends in a final byte |
| Ansi.CsiIsEscape | gpustat_web/app.py:34 | `ESC [`, parameter bytes, intermediate bytes and a final byte form a control sequence |
| Ansi.EscapeLenIsEscape | gpustat_web/app.py:34 | a non-zero match length marks a whole ESC Fe sequence or control sequence |
| Ansi.EscapeLenFinds | gpustat_web/app.py:34 | an escape sequence at the head of the text is what the pattern matches there |
| Ansi.EscapeLenSpec | gpustat_web/app.py:34 | a prefix is an escape sequence exactly when its length is the match length |
| Ansi.NoFinalInCsiBody | gpustat_web/app.py:34 | parameter and intermediate bytes are never final bytes, so a control sequence ends at its first final byte |
| Ansi.EscapePrefixFree | gpustat_web/app.py:34 | no escape sequence is a proper prefix of another |
| Ansi.NoNewlineInEscape | gpustat_web/app.py:34 | no escape sequence contains a line break |
| Ansi.EscapeLenStable | gpustat_web/app.py:34 | text appended after a line boundary does not change what is matched at the head |
| Ansi.StripAnsi | gpustat_web/app.py:159 | `RE_ANSI.sub('', s)` never lengthens the text; the lemmas below state what it drops and keeps |
| Ansi.StripPlainPrefix | gpustat_web/app.py:159 | ESC-free text in front is kept as is |
| Ansi.StripWithoutEsc | gpustat_web/app.py:159 | text without ESC comes out unchanged |
| Ansi.StripEscapePrefix | gpustat_web/app.py:159 | an escape sequence in front is removed entirely |
| Ansi.StripMalformedEsc | gpustat_web/app.py:159 | an ESC that starts no sequence is kept, and the scan resumes right after it |
| Ansi.StripConcat | gpustat_web/app.py:159 | stripping distributes over a concatenation cut at a line boundary |
| Ansi.StripKeepsNewlineEnd | gpustat_web/app.py:159 | a text ending with a line break still ends with one after stripping |
| Ansi.StripNotIdempotent | gpustat_web/app.py:159 | `ESC ESC[0m A` strips to `ESC A`, which strips again to nothing |
| Status.MessageEntry | gpustat_web/app.py:47 | the entry ends with the message and one line break |
| Status.OutputEntry | gpustat_web/app.py:74 | the entry is the stripped output followed by four line breaks, with no label |
| Status.AddKey | gpustat_web/app.py:47 | assigning a key keeps the old key order as a prefix and adds only that key |
| Status.BodyFromAdmittedEntries | gpustat_web/app.py:146-152 | the rendering is non-empty exactly when some host the filter admits has a non-empty entry |
| Status.BodyIgnoresUnlistedHosts | gpustat_web/app.py:146-152 | with a filter, the entries of unlisted hosts do not affect the rendering |
| Status.BodyOfUnlistedHosts | gpustat_web/app.py:150 | hosts the filter does not name contribute nothing |
| Status.BodySingleHost | gpustat_web/app.py:146-152 | filtering on one stored host renders exactly its entry |
| Status.BodyFilterOfAllHosts | gpustat_web/app.py:150 | a filter naming every stored host renders as no filter |
| Status.BodyNewlineTerminated | gpustat_web/app.py:146-152 | newline-terminated entries give an empty or newline-terminated rendering |
| Status.StripBody | gpustat_web/app.py:146-159 | plain mode equals the ansi rendering of the store with every entry stripped on its own |
| Status.Context.constructor | gpustat_web/app.py:42-44 | the store starts empty |
| Status.Context.Assign | gpustat_web/app.py:74 | `host_status[h] = text` replaces h's entry, keeps h's position, leaves every other entry and the key order as they were |
| Status.Context.SetMessage | gpustat_web/app.py:46-47 | `host_set_message` stores the labelled message entry for that host and changes nothing else |
| Status.Context.SetOutput | gpustat_web/app.py:74 | a successful poll stores the output entry for that host and changes nothing else |
| Status.RenderBody | gpustat_web/app.py:140-161 | html, ansi and plain modes return the converted, raw and stripped concatenation of the admitted non-empty entries in key order; any other mode fails with the mode |
| Supervisor.Step | gpustat_web/app.py:61-85 | only a connect or run failure leads to the backoff; a run result stays in Polling whatever the exit status; only a connect and the end of the backoff write nothing; a successful connect enters Polling, and only the end of the backoff returns to Connecting |
| Supervisor.ConnectThenPoll | gpustat_web/app.py:62-74 | after a successful connect the first command result is polled and reported, and the supervisor stays in the poll loop |
| Supervisor.PollOutcome | gpustat_web/app.py:68-74 | exit 0 stores the trimmed output with four line breaks and no label; any other exit status stores the host's labelled red `[Error n]` line; no other entry changes |
| Supervisor.FailureOutcome | gpustat_web/app.py:80-85 | a failed connect or run stores the host's labelled red `Type: message` line, changes no other entry, and leads to the backoff |
| Supervisor.EntryText | gpustat_web/app.py:70-83 | every write leaves a newline-terminated entry |
| Supervisor.ExitSummary | gpustat_web/app.py:69-70 | the report of a non-zero exit is one line starting with `[Error `, however many lines stderr holds; split at its first `]`, it gives back `[Error ` with the exit status, and the first line of stderr after a space |
| Supervisor.ExceptionSummary | gpustat_web/app.py:83 | splitting the report at its first colon gives back the exception's type name and its message, when the type name holds no colon |
| Supervisor.Report | gpustat_web/app.py:68-83 | an exception or a non-zero exit goes through `host_set_message`, output is assigned directly; either way only that host's entry is replaced |
| Supervisor.Perform | gpustat_web/app.py:66-85 | one step writes only the entry of its own host, as the transition says: the output entry on exit 0, the labelled `[Error n]` message on another exit status, the labelled exception message on a failure |
| Supervisor.RunClient | gpustat_web/app.py:61-85 | after any admissible run of outcomes, the host's entry is the last write and no other entry changes |
| Supervisor.NoTerminalPhase | gpustat_web/app.py:78-85 | every phase waits on some outcome: the supervisor never stops by itself |
| Supervisor.TraceConcat | gpustat_web/app.py:61-85 | runs compose, and the later write wins |
| Supervisor.LatestWriteWins | gpustat_web/app.py:70-83 | an outcome that writes replaces the entry, with no trace of the older text |
| Supervisor.AlwaysFailingHost | gpustat_web/app.py:78-85 | a host that never connects is retried forever and its entry reports the failure |
| Supervisor.FleetIsolation | gpustat_web/app.py:113-123 | under any interleaving, the entry of a host that exactly one supervisor polls is what that supervisor alone would leave |
| Supervisor.RunFleet | gpustat_web/app.py:113-123 | the fleet leaves the store described by the interleaving; the old key order stays a prefix, and is unchanged when every host already has an entry |
| Startup.ParseAll | gpustat_web/app.py:105 | every token parses, in order, or the error is that of the first token that does not |
| Startup.WritePlaceholders | gpustat_web/app.py:109-110 | the placeholder loop leaves the store with a `Loading ...` entry per name, in order, and keeps every entry newline-terminated |
| Startup.PlaceholdersCover | gpustat_web/app.py:109-110 | every parsed host gets a `Loading ...` entry, and other entries stay |
| Startup.AddKeysShape | gpustat_web/app.py:109-110 | old keys keep their places, each new host is added once, and duplicate host names collapse to one key |
| Startup.CommandFromLastEntry | gpustat_web/app.py:306-310 | a host that some `--exec` entry names runs the command of the last such entry with ` --color --force-color` appended |
| Startup.CommandWithoutEntry | gpustat_web/app.py:306-310 | a host that no `--exec` entry names runs `gpustat --color --force-color` |
| Startup.SpawnClients | gpustat_web/app.py:104-126 | a bad token or an empty host list fails and leaves the store unchanged; otherwise launch `i` is token `i` parsed, runs its host's command, and its host holds the `Loading ...` entry |
| Startup.ExecOverride | gpustat_web/app.py:309 | an entry without a colon is rejected; otherwise it is split at its first colon |
| Startup.ExecTableLastWins | gpustat_web/app.py:306-310 | each host maps to the command of its last entry with ` --color --force-color` appended |
| Startup.ExecTableKeys | gpustat_web/app.py:306-310 | only hosts some entry names are in the table |
| Startup.ParseExecOverrides | gpustat_web/app.py:306-310 | fails exactly when some entry has no colon; otherwise it builds that table |
| Query.ParseQuerystringList | gpustat_web/app.py:177-178 | no filter exactly for an absent or empty value; otherwise comma-free items that join back into the stripped value |
| Query.NodesRoundTrip | gpustat_web/app.py:177-178 | a comma-joined list of names without whitespace reads back as exactly those names |
| Query.SpacesAfterCommasKept | gpustat_web/app.py:178 | items are not trimmed: `a, b` names `a` and ` b` |
| Query.BlankFilterHidesAll | gpustat_web/app.py:178 | a whitespace-only value is a filter naming only the empty host, so no host is rendered |
| Query.FullFlagCaseInsensitive | gpustat_web/app.py:185 | the `full` flag ignores ASCII case, and an absent value means full |
| Query.FullFlagLengths | gpustat_web/app.py:185 | only values as long as `1`, `yes` or `true` turn it on; an empty value turns it off |
| Query.FullFlagExamples | gpustat_web/app.py:185 | `TRUE`, `Yes` and `1` turn it on; `0`, `no` and `on` do not |

## Left out

- The SSH session (`asyncssh.connect`, `conn.run`), `asyncio.wait_for` timeouts, the `poll_delay` sleeps and task cancellation. Their outcomes are the supervisor's input events; durations and time are not modelled.
- Supervisor.RunClient: models finite prefixes of the endless `while True` loops, and the run stops after the last given outcome. `CancelledError` at shutdown is not modelled.
- Supervisor.RunFleet: concurrency is modelled as one interleaving of whole steps. This is faithful for a single-threaded event loop where each store write happens between awaits.
- The aiohttp routes and handlers, the index page, the websocket loop and `json.loads`. This is network plumbing.
- The html conversion is an uninterpreted `HtmlConverter` parameter, and `ansi2html`'s colour-scheme patch is not modelled. `termcolor.colored` is an uninterpreted `Colorizer`, and `cprint` console output is not modelled.
- Jinja2 templates, SSL setup, argparse, the `hosts or ["localhost"]` default and the float `interval` with its `> 0.1` check. These are configuration, not logic.
- HostToken.IsUserChar: `\w` is taken as ASCII letters, digits and underscore; Python's `\w` also accepts other Unicode letters and digits. Likewise `\d` is taken as ASCII digits.
- Query.FullFlagCaseInsensitive: `lower()` is modelled for ASCII only. No non-ASCII character lowercases into one of `yes`, `true` or `1`, so the flag's value is unaffected.
- A `None` exit status, which asyncssh reports for a killed command, is not modelled; the exit status is an integer.
- `DEFAULT_GPUSTAT_COMMAND` (`gpustat_web/app.py:32`) is never used by the code and is not modelled.
- The `exit_status` and exception text are written as the f-strings render them. The model takes the exception's type name and message as given strings.
