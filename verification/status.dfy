/** The shared host-status store (`Context.host_status`) and `render_gpustat_body`. */
module Status {
  import opened Wrappers
  import opened Text
  import opened Ansi

  datatype Color = White | Red

  /** `termcolor.colored(text, color)`: what it returns depends on the terminal, so it is
      left uninterpreted and passed in. */
  type Colorizer = (string, Color) -> string

  /** `ansi_conv.convert(text, full=...)` of the ansi2html library, likewise passed in. */
  type HtmlConverter = (string, bool) -> string

  /** The entry `host_set_message(host, msg)` stores: a white `(host) ` label, the message
      and a line break. */
  function MessageEntry(host: string, msg: string, colored: Colorizer): (t: string)
    ensures EndsWithNewline(t)
    ensures |t| > |msg| && t[|t| - 1 - |msg|..] == msg + "\n"
  {
    colored("(" + host + ") ", White) + msg + "\n"
  }

  /** The entry a successful poll stores: the trimmed output and four line breaks,
      with no label. */
  function OutputEntry(stdout: string): (t: string)
    ensures |t| >= 4 && t[|t| - 4..] == "\n\n\n\n"
    ensures IsTrimmed(stdout, t[..|t| - 4])
  {
    Strip(stdout) + "\n\n\n\n"
  }

  /** The key order after assigning `host` in an OrderedDict: a new key goes last, an
      existing key keeps its place. */
  function AddKey(keys: seq<string>, host: string): (r: seq<string>)
    ensures host in r
    ensures forall h :: h in r <==> h in keys || h == host
    ensures keys <= r
  {
    if host in keys then keys else keys + [host]
  }

  predicate Distinct(keys: seq<string>) {
    forall i, j :: 0 <= i < j < |keys| ==> keys[i] != keys[j]
  }

  /** Whether a host passes the node filter: None lets every host through. */
  predicate Admits(nodes: Option<seq<string>>, host: string) {
    nodes.None? || host in nodes.value
  }

  /** What `render_gpustat_body` accumulates: in key order, the non-empty entries of the
      hosts the filter admits. */
  function Body(keys: seq<string>, status: map<string, string>, nodes: Option<seq<string>>): string
    requires forall h :: h in keys ==> h in status
  {
    if keys == [] then ""
    else
      var host := keys[|keys| - 1];
      Body(keys[..|keys| - 1], status, nodes)
      + (if status[host] != "" && Admits(nodes, host) then status[host] else "")
  }

  /** The rendering is built from the admitted non-empty entries alone: it is empty
      exactly when there are none. */
  lemma {:induction false} BodyFromAdmittedEntries(keys: seq<string>, status: map<string, string>,
                                                   nodes: Option<seq<string>>)
    requires forall h :: h in keys ==> h in status
    ensures Body(keys, status, nodes) != "" <==> exists h :: h in keys && Admits(nodes, h) && status[h] != ""
  {
    if keys != [] {
      var init := keys[..|keys| - 1];
      var last := keys[|keys| - 1];
      BodyFromAdmittedEntries(init, status, nodes);
      assert forall h :: h in keys <==> h in init || h == last;
    }
  }

  /** With a filter, changing the entry of a host the filter does not name leaves the
      rendering as it was: no other host's text can appear. */
  lemma {:induction false} BodyIgnoresUnlistedHosts(keys: seq<string>, st1: map<string, string>,
                                                    st2: map<string, string>, ns: seq<string>)
    requires forall h :: h in keys ==> h in st1 && h in st2
    requires forall h :: h in keys && h in ns ==> st1[h] == st2[h]
    ensures Body(keys, st1, Some(ns)) == Body(keys, st2, Some(ns))
  {
    if keys != [] {
      BodyIgnoresUnlistedHosts(keys[..|keys| - 1], st1, st2, ns);
    }
  }

  /** Hosts the filter does not admit contribute nothing. */
  lemma {:induction false} BodyOfUnlistedHosts(keys: seq<string>, st: map<string, string>, ns: seq<string>)
    requires forall h :: h in keys ==> h in st
    requires forall h :: h in keys ==> h !in ns
    ensures Body(keys, st, Some(ns)) == ""
  {
    if keys != [] {
      BodyOfUnlistedHosts(keys[..|keys| - 1], st, ns);
    }
  }

  /** Filtering on one stored host renders exactly that host's entry. */
  lemma {:induction false} BodySingleHost(keys: seq<string>, st: map<string, string>, host: string)
    requires forall h :: h in keys ==> h in st
    requires Distinct(keys) && host in keys
    ensures Body(keys, st, Some([host])) == st[host]
  {
    var init := keys[..|keys| - 1];
    if keys[|keys| - 1] == host {
      BodyOfUnlistedHosts(init, st, [host]);
    } else {
      assert host in init by {
        var i :| 0 <= i < |keys| && keys[i] == host;
        assert init[i] == host;
      }
      BodySingleHost(init, st, host);
    }
  }

  /** A filter naming every stored host renders as no filter at all. */
  lemma {:induction false} BodyFilterOfAllHosts(keys: seq<string>, st: map<string, string>, ns: seq<string>)
    requires forall h :: h in keys ==> h in st && h in ns
    ensures Body(keys, st, Some(ns)) == Body(keys, st, None)
  {
    if keys != [] {
      BodyFilterOfAllHosts(keys[..|keys| - 1], st, ns);
    }
  }

  /** Entries that are empty or end with a line break give a rendering that is empty or
      ends with a line break. */
  lemma {:induction false} BodyNewlineTerminated(keys: seq<string>, st: map<string, string>,
                                                 nodes: Option<seq<string>>)
    requires forall h :: h in keys ==> h in st && (st[h] == "" || EndsWithNewline(st[h]))
    ensures var b := Body(keys, st, nodes); b == "" || EndsWithNewline(b)
  {
    if keys != [] {
      BodyNewlineTerminated(keys[..|keys| - 1], st, nodes);
    }
  }

  /** Every entry with its escape sequences removed. */
  function StripEntries(st: map<string, string>): (r: map<string, string>)
    ensures r.Keys == st.Keys
  {
    map h | h in st :: StripAnsi(st[h])
  }

  /** Plain rendering keeps the per-host blocks: stripping the ANSI rendering equals
      rendering the store whose entries were stripped one by one. */
  lemma {:induction false} StripBody(keys: seq<string>, st: map<string, string>, nodes: Option<seq<string>>)
    requires forall h :: h in keys ==> h in st && (st[h] == "" || EndsWithNewline(st[h]))
    ensures StripAnsi(Body(keys, st, nodes)) == Body(keys, StripEntries(st), nodes)
  {
    if keys != [] {
      var init := keys[..|keys| - 1];
      var host := keys[|keys| - 1];
      var piece := if st[host] != "" && Admits(nodes, host) then st[host] else "";
      StripBody(init, st, nodes);
      BodyNewlineTerminated(init, st, nodes);
      StripConcat(Body(init, st, nodes), piece);
      if st[host] != "" {
        StripKeepsNewlineEnd(st[host]);
      }
    }
  }

  datatype RenderError = UnknownMode(mode: string)

  /** The process-wide context: `host_status`, an insertion-ordered map from hostname to
      status text, held as its key order and its key-value map. */
  class Context {
    var hosts: seq<string>
    var hostStatus: map<string, string>

    ghost predicate Valid()
      reads this
    {
      Distinct(hosts) && forall h :: h in hostStatus <==> h in hosts
    }

    /** Every entry ends with a line break; every writer of the store keeps this. */
    ghost predicate NewlineTerminated()
      reads this
    {
      forall h :: h in hostStatus ==> EndsWithNewline(hostStatus[h])
    }

    constructor ()
      ensures Valid() && NewlineTerminated()
      ensures hosts == [] && hostStatus == map[]
    {
      hosts := [];
      hostStatus := map[];
    }

    /** `host_status[host] = text`: replaces the entry of `host` whole, keeps its place in
        the key order, and leaves every other entry and the order of the others alone. */
    method Assign(host: string, text: string)
      requires Valid()
      modifies this
      ensures Valid()
      ensures hostStatus == old(hostStatus)[host := text]
      ensures hosts == AddKey(old(hosts), host)
      ensures old(NewlineTerminated()) && EndsWithNewline(text) ==> NewlineTerminated()
    {
      if host !in hostStatus {
        hosts := hosts + [host];
      }
      hostStatus := hostStatus[host := text];
    }

    /** `host_set_message(host, msg)` */
    method SetMessage(host: string, msg: string, colored: Colorizer)
      requires Valid()
      modifies this
      ensures Valid()
      ensures hostStatus == old(hostStatus)[host := MessageEntry(host, msg, colored)]
      ensures hosts == AddKey(old(hosts), host)
      ensures old(NewlineTerminated()) ==> NewlineTerminated()
    {
      Assign(host, MessageEntry(host, msg, colored));
    }

    /** The direct write of a successful poll's output. */
    method SetOutput(host: string, stdout: string)
      requires Valid()
      modifies this
      ensures Valid()
      ensures hostStatus == old(hostStatus)[host := OutputEntry(stdout)]
      ensures hosts == AddKey(old(hosts), host)
      ensures old(NewlineTerminated()) ==> NewlineTerminated()
    {
      Assign(host, OutputEntry(stdout));
    }
  }

  /** `render_gpustat_body(mode, full_html=fullHtml, nodes=nodes)`: reads the store and
      changes nothing. */
  method RenderBody(ctx: Context, mode: string, fullHtml: bool, nodes: Option<seq<string>>,
                    toHtml: HtmlConverter)
    returns (r: Result<string, RenderError>)
    requires ctx.Valid()
    ensures mode == "html" ==> r == Success(toHtml(Body(ctx.hosts, ctx.hostStatus, nodes), fullHtml))
    ensures mode == "ansi" ==> r == Success(Body(ctx.hosts, ctx.hostStatus, nodes))
    ensures mode == "plain" ==> r == Success(StripAnsi(Body(ctx.hosts, ctx.hostStatus, nodes)))
    ensures mode != "html" && mode != "ansi" && mode != "plain" ==> r == Failure(UnknownMode(mode))
  {
    var body := "";
    var i := 0;
    while i < |ctx.hosts|
      invariant 0 <= i <= |ctx.hosts|
      invariant body == Body(ctx.hosts[..i], ctx.hostStatus, nodes)
    {
      var host := ctx.hosts[i];
      var status := ctx.hostStatus[host];
      assert ctx.hosts[..i + 1][..i] == ctx.hosts[..i];
      if status == "" {
      } else if nodes.Some? && host !in nodes.value {
      } else {
        body := body + status;
      }
      i := i + 1;
    }
    assert ctx.hosts[..i] == ctx.hosts;
    if mode == "html" {
      r := Success(toHtml(body, fullHtml));
    } else if mode == "ansi" {
      r := Success(body);
    } else if mode == "plain" {
      r := Success(StripAnsi(body));
    } else {
      r := Failure(UnknownMode(mode));
    }
  }
}
