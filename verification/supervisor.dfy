/** `run_client`: the per-host supervisor as a state machine driven by the outcomes of
    its I/O (connect, run the command, sleep), and the fleet of supervisors that
    `asyncio.gather` interleaves. */
module Supervisor {
  import opened Wrappers
  import opened Text
  import opened Status

  /** Connecting: inside `asyncssh.connect`. Polling: in the inner `while True`.
      Backoff: in the `asyncio.sleep(poll_delay)` after a failure. */
  datatype Phase = Connecting | Polling | Backoff

  /** The outcome of the I/O the supervisor is waiting on. `kind` is the exception's type
      name and `msg` its text; RunFail covers the timeout and a dropped transport. */
  datatype Event =
    | ConnectOk
    | ConnectFail(kind: string, msg: string)
    | RunResult(exitStatus: int, stdout: string, stderr: string)
    | RunFail(kind: string, msg: string)
    | BackoffElapsed

  /** What a step writes to the host's entry. */
  datatype Write =
    | ExceptionReport(kind: string, msg: string)
    | ExitReport(exitStatus: int, stderr: string)
    | OutputReport(stdout: string)

  datatype Transition = Transition(next: Phase, write: Option<Write>)

  /** The outcomes the I/O of each phase can produce. */
  predicate Enabled(p: Phase, e: Event) {
    match p
    case Connecting => e.ConnectOk? || e.ConnectFail?
    case Polling => e.RunResult? || e.RunFail?
    case Backoff => e.BackoffElapsed?
  }

  /** One transition of `run_client`. */
  function Step(p: Phase, e: Event): (t: Transition)
    requires Enabled(p, e)
    ensures t.next == Backoff <==> (e.ConnectFail? || e.RunFail?)
    ensures t.write.None? <==> (e.ConnectOk? || e.BackoffElapsed?)
    ensures p == Polling ==> (t.next == Polling <==> e.RunResult?)
    ensures e.ConnectOk? ==> t.next == Polling
    ensures t.next == Connecting <==> e.BackoffElapsed?
  {
    match e
    case ConnectOk => Transition(Polling, None)
    case ConnectFail(kind, msg) => Transition(Backoff, Some(ExceptionReport(kind, msg)))
    case RunResult(x, out, err) =>
      if x != 0 then Transition(Polling, Some(ExitReport(x, err)))
      else Transition(Polling, Some(OutputReport(out)))
    case RunFail(kind, msg) => Transition(Backoff, Some(ExceptionReport(kind, msg)))
    case BackoffElapsed => Transition(Connecting, None)
  }

  /** `f"{type(e).__name__}: {e}"`: the exception's type name can be read back as the
      text before the first colon, since type names hold none. */
  function ExceptionSummary(kind: string, msg: string): (r: string)
    ensures ':' !in kind ==> SplitFirst(r, ':') == Some((kind, " " + msg))
  {
    var r := kind + ": " + msg;
    assert r == kind + [':'] + (" " + msg);
    if ':' !in kind then
      SplitFirstAt(kind, ':', " " + msg);
      r
    else r
  }

  /** The report line of a non-zero exit, for a status made of digits and a minus sign
      and a single-line stderr summary: one line, which reads back at its first `]`. */
  lemma ErrorLine(status: string, summary: string)
    requires forall i :: 0 <= i < |status| ==> IsDigit(status[i]) || status[i] == '-'
    requires '\n' !in summary
    ensures var r := "[Error " + status + "] " + summary;
      && '\n' !in r
      && SplitFirst(r, ']') == Some(("[Error " + status, " " + summary))
  {
    var head := "[Error " + status;
    assert forall i :: 0 <= i < |head| ==> head[i] != ']' && head[i] != '\n' by {
      forall i | 0 <= i < |head| ensures head[i] != ']' && head[i] != '\n' {
        if i >= 7 {
          assert head[i] == status[i - 7];
        }
      }
    }
    var r := "[Error " + status + "] " + summary;
    assert r == head + [']'] + (" " + summary);
    SplitFirstAt(head, ']', " " + summary);
  }

  /** `f'[Error {exit_status}] {stderr_summary}'`: a single line, however many lines the
      command wrote to stderr, from which the status and the summary read back. */
  function ExitSummary(exitStatus: int, stderr: string): (r: string)
    ensures '\n' !in r
    ensures |r| > 7 && r[..7] == "[Error "
    ensures SplitFirst(r, ']') == Some(("[Error " + IntToString(exitStatus), " " + FirstLine(stderr)))
  {
    ErrorLine(IntToString(exitStatus), FirstLine(stderr));
    "[Error " + IntToString(exitStatus) + "] " + FirstLine(stderr)
  }

  /** The red exception report. */
  function ExceptionText(kind: string, msg: string, colored: Colorizer): string {
    colored(ExceptionSummary(kind, msg), Red)
  }

  /** The red report of a non-zero exit. */
  function ExitText(exitStatus: int, stderr: string, colored: Colorizer): string {
    colored(ExitSummary(exitStatus, stderr), Red)
  }

  /** The text a write leaves as the host's entry. */
  function EntryText(host: string, w: Write, colored: Colorizer): (t: string)
    ensures EndsWithNewline(t)
  {
    match w
    case ExceptionReport(kind, msg) => MessageEntry(host, ExceptionText(kind, msg, colored), colored)
    case ExitReport(x, err) => MessageEntry(host, ExitText(x, err, colored), colored)
    case OutputReport(out) => OutputEntry(out)
  }

  /** The status map after an optional write for `host`. */
  function Record(st: map<string, string>, host: string, w: Option<Write>, colored: Colorizer)
    : map<string, string>
  {
    if w.Some? then st[host := EntryText(host, w.value, colored)] else st
  }

  /** `a` and `b` agree on the entry of `h`: both lack it, or both hold the same text. */
  predicate SameEntry(a: map<string, string>, b: map<string, string>, h: string) {
    (h in a <==> h in b) && (h in a ==> a[h] == b[h])
  }

  /** A write sets the entry of its own host and no other. */
  lemma WriteOwnEntry(st: map<string, string>, host: string, w: Write, colored: Colorizer)
    ensures var st' := Record(st, host, Some(w), colored);
      && host in st' && st'[host] == EntryText(host, w, colored)
      && forall h :: h != host ==> SameEntry(st', st, h)
  {
  }

  /** A poll writes by exit status: exit 0 stores the trimmed output with four line breaks
      and no label, any other status the host's labelled red `[Error n]` line. Either way
      the poll's entry replaces the old one and every other host keeps its entry. */
  lemma PollOutcome(st: map<string, string>, host: string, x: int, out: string, err: string,
                    colored: Colorizer)
    ensures var st' := Record(st, host, Step(Polling, RunResult(x, out, err)).write, colored);
      && host in st'
      && (x == 0 ==> st'[host] == OutputEntry(out))
      && (x != 0 ==> st'[host] == MessageEntry(host, ExitText(x, err, colored), colored))
      && forall h :: h != host ==> SameEntry(st', st, h)
  {
    if x == 0 {
      WriteOwnEntry(st, host, OutputReport(out), colored);
    } else {
      WriteOwnEntry(st, host, ExitReport(x, err), colored);
    }
  }

  /** A failed connect or run stores the host's labelled red `Type: message` line, and the
      supervisor backs off. */
  lemma FailureOutcome(st: map<string, string>, host: string, p: Phase, e: Event, colored: Colorizer)
    requires Enabled(p, e) && (e.ConnectFail? || e.RunFail?)
    ensures Step(p, e).next == Backoff
    ensures var st' := Record(st, host, Step(p, e).write, colored);
      && host in st'
      && st'[host] == MessageEntry(host, ExceptionText(e.kind, e.msg, colored), colored)
      && forall h :: h != host ==> SameEntry(st', st, h)
  {
    WriteOwnEntry(st, host, ExceptionReport(e.kind, e.msg), colored);
  }

  /** The events can occur in this order, starting from phase `p`. */
  predicate Admissible(p: Phase, es: seq<Event>)
    decreases |es|
  {
    es == [] || (Enabled(p, es[0]) && Admissible(Step(p, es[0]).next, es[1..]))
  }

  /** The phase after the events. */
  function Final(p: Phase, es: seq<Event>): Phase
    requires Admissible(p, es)
    decreases |es|
  {
    if es == [] then p else Final(Step(p, es[0]).next, es[1..])
  }

  /** The last write the events cause, if any: the entry never holds anything older. */
  function LastWrite(p: Phase, es: seq<Event>): Option<Write>
    requires Admissible(p, es)
    decreases |es|
  {
    if es == [] then None
    else
      var rest := LastWrite(Step(p, es[0]).next, es[1..]);
      if rest.Some? then rest else Step(p, es[0]).write
  }

  /** A successful connect enters the poll loop: its first command result is polled and
      reported. */
  lemma ConnectThenPoll(x: int, out: string, err: string)
    ensures Admissible(Connecting, [ConnectOk, RunResult(x, out, err)])
    ensures Final(Connecting, [ConnectOk, RunResult(x, out, err)]) == Polling
    ensures LastWrite(Connecting, [ConnectOk, RunResult(x, out, err)]) == Step(Polling, RunResult(x, out, err)).write
  {
    var es := [ConnectOk, RunResult(x, out, err)];
    var poll := [RunResult(x, out, err)];
    assert es[1..] == poll && poll[1..] == [];
    assert Final(Polling, poll) == Final(Polling, []);
    assert LastWrite(Polling, poll) == Step(Polling, RunResult(x, out, err)).write;
  }

  /** Taking the first event off a trace: its write, then the rest's last write. */
  lemma RecordFirstThenRest(st: map<string, string>, host: string, p: Phase, es: seq<Event>,
                            colored: Colorizer)
    requires es != [] && Admissible(p, es)
    ensures var t := Step(p, es[0]);
      && Record(st, host, LastWrite(p, es), colored)
         == Record(Record(st, host, t.write, colored), host, LastWrite(t.next, es[1..]), colored)
      && (LastWrite(p, es).Some? <==> t.write.Some? || LastWrite(t.next, es[1..]).Some?)
      && Final(p, es) == Final(t.next, es[1..])
  {
  }

  /** A write against the store: `host_set_message` for the reports, the direct
      assignment for a successful poll's output. */
  method Report(ctx: Context, host: string, w: Write, colored: Colorizer)
    requires ctx.Valid()
    modifies ctx
    ensures ctx.Valid()
    ensures ctx.hostStatus == old(ctx.hostStatus)[host := EntryText(host, w, colored)]
    ensures ctx.hosts == AddKey(old(ctx.hosts), host)
    ensures old(ctx.NewlineTerminated()) ==> ctx.NewlineTerminated()
  {
    match w
    case ExceptionReport(kind, msg) =>
      ctx.SetMessage(host, ExceptionText(kind, msg, colored), colored);
    case ExitReport(x, err) =>
      ctx.SetMessage(host, ExitText(x, err, colored), colored);
    case OutputReport(out) =>
      ctx.SetOutput(host, out);
  }

  /** One step of `run_client` against the store: the report a poll or a failure makes is
      written to the host's entry; a connect and the end of the backoff write nothing. */
  method Perform(ctx: Context, host: string, phase: Phase, e: Event, colored: Colorizer)
    returns (next: Phase)
    requires ctx.Valid() && Enabled(phase, e)
    modifies ctx
    ensures ctx.Valid()
    ensures next == Step(phase, e).next
    ensures ctx.hostStatus == Record(old(ctx.hostStatus), host, Step(phase, e).write, colored)
    ensures ctx.hosts == if Step(phase, e).write.Some? then AddKey(old(ctx.hosts), host) else old(ctx.hosts)
    ensures e.RunResult? && e.exitStatus == 0 ==> ctx.hostStatus[host] == OutputEntry(e.stdout)
    ensures e.RunResult? && e.exitStatus != 0 ==>
              ctx.hostStatus[host] == MessageEntry(host, ExitText(e.exitStatus, e.stderr, colored), colored)
    ensures e.ConnectFail? || e.RunFail? ==>
              ctx.hostStatus[host] == MessageEntry(host, ExceptionText(e.kind, e.msg, colored), colored)
    ensures old(ctx.NewlineTerminated()) ==> ctx.NewlineTerminated()
  {
    ghost var st := ctx.hostStatus;
    var t := Step(phase, e);
    if t.write.Some? {
      Report(ctx, host, t.write.value, colored);
    }
    match e {
      case RunResult(x, out, err) => PollOutcome(st, host, x, out, err, colored);
      case ConnectFail(_, _) => FailureOutcome(st, host, phase, e, colored);
      case RunFail(_, _) => FailureOutcome(st, host, phase, e, colored);
      case _ =>
    }
    next := t.next;
  }

  /** `run_client(host, ...)` fed a finite prefix of its I/O outcomes: it only ever writes
      the entry of `host`, and that entry ends up as the last write. */
  method RunClient(ctx: Context, host: string, events: seq<Event>, colored: Colorizer)
    returns (phase: Phase)
    requires ctx.Valid() && Admissible(Connecting, events)
    modifies ctx
    ensures ctx.Valid()
    ensures phase == Final(Connecting, events)
    ensures ctx.hostStatus == Record(old(ctx.hostStatus), host, LastWrite(Connecting, events), colored)
    ensures ctx.hosts == if LastWrite(Connecting, events).Some? then AddKey(old(ctx.hosts), host) else old(ctx.hosts)
    ensures old(ctx.NewlineTerminated()) ==> ctx.NewlineTerminated()
  {
    phase := Connecting;
    var i := 0;
    ghost var wrote := false;
    while i < |events|
      invariant 0 <= i <= |events|
      invariant ctx.Valid()
      invariant Admissible(phase, events[i..])
      invariant Final(phase, events[i..]) == Final(Connecting, events)
      invariant Record(ctx.hostStatus, host, LastWrite(phase, events[i..]), colored)
                == Record(old(ctx.hostStatus), host, LastWrite(Connecting, events), colored)
      invariant (wrote || LastWrite(phase, events[i..]).Some?) == LastWrite(Connecting, events).Some?
      invariant ctx.hosts == if wrote then AddKey(old(ctx.hosts), host) else old(ctx.hosts)
      invariant old(ctx.NewlineTerminated()) ==> ctx.NewlineTerminated()
    {
      assert events[i..][1..] == events[i + 1..];
      RecordFirstThenRest(ctx.hostStatus, host, phase, events[i..], colored);
      var w := Step(phase, events[i]).write;
      phase := Perform(ctx, host, phase, events[i], colored);
      wrote := wrote || w.Some?;
      i := i + 1;
    }
  }

  /** No phase is terminal: each one waits on some I/O outcome, so the supervisor never
      stops by itself. */
  lemma NoTerminalPhase(p: Phase)
    ensures exists e :: Enabled(p, e)
  {
    match p
    case Connecting => assert Enabled(p, ConnectOk);
    case Polling => assert Enabled(p, RunFail("", ""));
    case Backoff => assert Enabled(p, BackoffElapsed);
  }

  /** Traces compose: running `es1 + es2` is running `es1`, then `es2` from where it ended,
      and the entry holds the later write whenever `es2` writes at all. */
  lemma {:induction false} TraceConcat(p: Phase, es1: seq<Event>, es2: seq<Event>)
    requires Admissible(p, es1) && Admissible(Final(p, es1), es2)
    ensures Admissible(p, es1 + es2)
    ensures Final(p, es1 + es2) == Final(Final(p, es1), es2)
    ensures LastWrite(p, es1 + es2)
            == if LastWrite(Final(p, es1), es2).Some? then LastWrite(Final(p, es1), es2) else LastWrite(p, es1)
    decreases |es1|
  {
    if es1 == [] {
      assert es1 + es2 == es2;
    } else {
      assert (es1 + es2)[1..] == es1[1..] + es2;
      TraceConcat(Step(p, es1[0]).next, es1[1..], es2);
    }
  }

  /** The entry is always the most recent write: an event that writes replaces whatever
      the earlier events left, with no trace of it. */
  lemma LatestWriteWins(p: Phase, es: seq<Event>, e: Event)
    requires Admissible(p, es) && Enabled(Final(p, es), e)
    requires Step(Final(p, es), e).write.Some?
    ensures Admissible(p, es + [e])
    ensures LastWrite(p, es + [e]) == Step(Final(p, es), e).write
  {
    TraceConcat(p, es, [e]);
  }

  /** `n` rounds of a connection that always fails, each followed by the backoff. */
  function FailingRounds(n: nat, kind: string, msg: string): seq<Event> {
    if n == 0 then [] else [ConnectFail(kind, msg), BackoffElapsed] + FailingRounds(n - 1, kind, msg)
  }

  /** A host whose connection always fails is retried forever: after any number of rounds
      the supervisor is connecting again, and from the first round on its entry reports
      the failure. */
  lemma {:induction false} AlwaysFailingHost(n: nat, kind: string, msg: string)
    ensures Admissible(Connecting, FailingRounds(n, kind, msg))
    ensures Final(Connecting, FailingRounds(n, kind, msg)) == Connecting
    ensures n > 0 ==> LastWrite(Connecting, FailingRounds(n, kind, msg)) == Some(ExceptionReport(kind, msg))
  {
    if n > 0 {
      var es := FailingRounds(n, kind, msg);
      AlwaysFailingHost(n - 1, kind, msg);
      assert es[1..] == [BackoffElapsed] + FailingRounds(n - 1, kind, msg);
      assert es[1..][1..] == FailingRounds(n - 1, kind, msg);
      assert LastWrite(Backoff, es[1..]) == LastWrite(Connecting, FailingRounds(n - 1, kind, msg));
    }
  }

  /** One scheduled outcome: supervisor number `worker` observes `event`. */
  datatype Tick = Tick(worker: nat, event: Event)

  /** The ticks can occur in this order when the supervisors are in `phases`. */
  predicate FleetAdmissible(phases: seq<Phase>, ticks: seq<Tick>)
    decreases |ticks|
  {
    ticks == [] ||
      (var t := ticks[0];
       && t.worker < |phases|
       && Enabled(phases[t.worker], t.event)
       && FleetAdmissible(phases[t.worker := Step(phases[t.worker], t.event).next], ticks[1..]))
  }

  /** The status map after the supervisors of `hosts` have run through `ticks`. */
  function FleetStatus(hosts: seq<string>, phases: seq<Phase>, st: map<string, string>,
                       ticks: seq<Tick>, colored: Colorizer): map<string, string>
    requires |hosts| == |phases| && FleetAdmissible(phases, ticks)
    decreases |ticks|
  {
    if ticks == [] then st
    else
      var t := ticks[0];
      var tr := Step(phases[t.worker], t.event);
      FleetStatus(hosts, phases[t.worker := tr.next], Record(st, hosts[t.worker], tr.write, colored),
                  ticks[1..], colored)
  }

  /** The events that supervisor `w` observes, in order. */
  function Project(ticks: seq<Tick>, w: nat): (es: seq<Event>)
    ensures |es| <= |ticks|
  {
    if ticks == [] then []
    else (if ticks[0].worker == w then [ticks[0].event] else []) + Project(ticks[1..], w)
  }

  /** A write for another host leaves the entry of `h` as it was. */
  lemma OtherHostWrite(st: map<string, string>, other: string, h: string, w1: Option<Write>,
                       w2: Option<Write>, colored: Colorizer)
    requires other != h
    ensures SameEntry(Record(Record(st, other, w1, colored), h, w2, colored), Record(st, h, w2, colored), h)
  {
  }

  /** A supervisor's own event, followed by the rest of its events. */
  lemma OwnWrite(st: map<string, string>, h: string, p: Phase, e: Event, rest: seq<Event>,
                 colored: Colorizer)
    requires Enabled(p, e) && Admissible(Step(p, e).next, rest)
    ensures Admissible(p, [e] + rest)
    ensures SameEntry(Record(Record(st, h, Step(p, e).write, colored), h, LastWrite(Step(p, e).next, rest), colored),
                      Record(st, h, LastWrite(p, [e] + rest), colored), h)
  {
    var es := [e] + rest;
    assert es[0] == e && es[1..] == rest;
    RecordFirstThenRest(st, h, p, es, colored);
  }

  /** Supervisors are independent: however the fleet's outcomes interleave, the entry of a
      host that only one supervisor polls is what that supervisor alone would leave. */
  lemma {:induction false} FleetIsolation(hosts: seq<string>, phases: seq<Phase>, st: map<string, string>,
                                          ticks: seq<Tick>, colored: Colorizer, w: nat)
    requires |hosts| == |phases| && FleetAdmissible(phases, ticks)
    requires w < |hosts|
    requires forall j :: 0 <= j < |hosts| && j != w ==> hosts[j] != hosts[w]
    ensures Admissible(phases[w], Project(ticks, w))
    ensures SameEntry(FleetStatus(hosts, phases, st, ticks, colored),
                      Record(st, hosts[w], LastWrite(phases[w], Project(ticks, w)), colored), hosts[w])
    decreases |ticks|
  {
    if ticks != [] {
      var t := ticks[0];
      var tr := Step(phases[t.worker], t.event);
      var phases' := phases[t.worker := tr.next];
      var st' := Record(st, hosts[t.worker], tr.write, colored);
      var rest := Project(ticks[1..], w);
      FleetIsolation(hosts, phases', st', ticks[1..], colored, w);
      if t.worker == w {
        assert phases'[w] == tr.next;
        assert Project(ticks, w) == [t.event] + rest;
        OwnWrite(st, hosts[w], phases[w], t.event, rest, colored);
      } else {
        assert phases'[w] == phases[w];
        assert Project(ticks, w) == rest;
        OtherHostWrite(st, hosts[t.worker], hosts[w], tr.write, LastWrite(phases[w], rest), colored);
      }
    }
  }

  /** The phases of freshly launched supervisors. */
  function Launched(n: nat): (phases: seq<Phase>)
    ensures |phases| == n && forall i :: 0 <= i < n ==> phases[i] == Connecting
  {
    seq(n, _ => Connecting)
  }

  /** `asyncio.gather` over one `run_client` per host, fed one interleaving of their I/O
      outcomes. */
  method RunFleet(ctx: Context, hosts: seq<string>, ticks: seq<Tick>, colored: Colorizer)
    returns (phases: seq<Phase>)
    requires ctx.Valid() && FleetAdmissible(Launched(|hosts|), ticks)
    modifies ctx
    ensures ctx.Valid()
    ensures ctx.hostStatus == FleetStatus(hosts, Launched(|hosts|), old(ctx.hostStatus), ticks, colored)
    ensures old(ctx.hosts) <= ctx.hosts
    ensures (forall i :: 0 <= i < |hosts| ==> hosts[i] in old(ctx.hostStatus)) ==> ctx.hosts == old(ctx.hosts)
    ensures old(ctx.NewlineTerminated()) ==> ctx.NewlineTerminated()
  {
    ghost var keys0 := ctx.hosts;
    ghost var placed := forall i :: 0 <= i < |hosts| ==> hosts[i] in ctx.hostStatus;
    phases := Launched(|hosts|);
    var i := 0;
    while i < |ticks|
      invariant 0 <= i <= |ticks|
      invariant ctx.Valid()
      invariant |phases| == |hosts| && FleetAdmissible(phases, ticks[i..])
      invariant FleetStatus(hosts, phases, ctx.hostStatus, ticks[i..], colored)
                == FleetStatus(hosts, Launched(|hosts|), old(ctx.hostStatus), ticks, colored)
      invariant keys0 <= ctx.hosts
      invariant placed ==> ctx.hosts == keys0 && forall j :: 0 <= j < |hosts| ==> hosts[j] in ctx.hostStatus
      invariant old(ctx.NewlineTerminated()) ==> ctx.NewlineTerminated()
    {
      assert ticks[i..][1..] == ticks[i + 1..];
      var t := ticks[i];
      var next := Perform(ctx, hosts[t.worker], phases[t.worker], t.event, colored);
      phases := phases[t.worker := next];
      i := i + 1;
    }
  }
}
