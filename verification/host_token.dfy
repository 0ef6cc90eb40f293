/** The host-token parser of `spawn_clients`: `[user@]host[:port]` read with the anchored
    pattern `(?:(?P<user>[\w-]+)@)?(?P<host>[^:]+)(?::(?P<port>\d+))?`. */
module HostToken {
  import opened Wrappers
  import opened Text

  /** The username used when a token names none. */
  const DefaultUser: string := "netdb"

  /** `[\w-]` with `\w` taken as ASCII letters, digits and underscore. */
  predicate IsUserChar(c: char) {
    'a' <= c <= 'z' || 'A' <= c <= 'Z' || '0' <= c <= '9' || c == '_' || c == '-'
  }

  predicate AllUserChars(s: string) {
    forall i :: 0 <= i < |s| ==> IsUserChar(s[i])
  }

  /** `[^:]` */
  predicate NotColon(c: char) {
    c != ':'
  }

  /** The groups of a successful match; an absent optional group is None. */
  datatype HostMatch = HostMatch(user: Option<string>, host: string, port: Option<string>)

  /** The text the user group and its `@` consume (nothing when the group is absent). */
  function UserPart(m: HostMatch): string {
    if m.user.Some? then m.user.value + "@" else ""
  }

  /** The text the host group and the optional port group consume. */
  function HostPortPart(m: HostMatch): string {
    m.host + (if m.port.Some? then ":" + m.port.value else "")
  }

  /** The text a match consumes from the start of the token. */
  function Consumed(m: HostMatch): string {
    UserPart(m) + HostPortPart(m)
  }

  /** The user alternative can succeed with a user group of length `k`:
      `[\w-]+` of length `k`, then `@`, then at least one host character. */
  predicate UserAlternativeAt(s: string, k: nat) {
    0 < k && k + 1 < |s| && s[k] == '@' && s[k + 1] != ':' && AllUserChars(s[..k])
  }

  /** The host and port groups of `m` are what the greedy `[^:]+` and the optional,
      greedy `(?::\d+)?` take from the start of `rest`. */
  ghost predicate IsHostPortMatch(rest: string, m: HostMatch) {
    && HostPortPart(m) <= rest
    && m.host != [] && ':' !in m.host
    && (|m.host| == |rest| || rest[|m.host|] == ':')
    && (m.port.Some? ==>
          && m.port.value != [] && AllDigits(m.port.value)
          && (|HostPortPart(m)| == |rest| || !IsDigit(rest[|HostPortPart(m)|])))
    && (m.port.None? ==> !(|m.host| + 1 < |rest| && IsDigit(rest[|m.host| + 1])))
  }

  /** `m` is the match Python's backtracking matcher reports for `s`: every group is
      greedy, the optional groups are taken whenever they can be, and the text after
      the match is not looked at. */
  ghost predicate IsLeftmostMatch(s: string, m: HostMatch) {
    && UserPart(m) <= s
    && (m.user.Some? ==> m.user.value != [] && AllUserChars(m.user.value))
    && (m.user.None? ==> forall k :: !UserAlternativeAt(s, k))
    && IsHostPortMatch(s[|UserPart(m)|..], m)
  }

  /** The host group and the optional port group, matched from the start of `rest`. */
  function MatchHostPort(user: Option<string>, rest: string): (m: HostMatch)
    requires rest != [] && rest[0] != ':'
    ensures m.user == user
  {
    var h := Run(rest, NotColon);
    var d := if h < |rest| then Run(rest[h + 1..], IsDigit) else 0;
    if d > 0 then HostMatch(user, rest[..h], Some(rest[h + 1..h + 1 + d]))
    else HostMatch(user, rest[..h], None)
  }

  /** `re.match` of the host pattern: None exactly when the token is empty or starts with `:`. */
  function MatchHost(s: string): (r: Option<HostMatch>)
    ensures r.None? <==> (s == [] || s[0] == ':')
  {
    var u := Run(s, IsUserChar);
    if 0 < u && u + 1 < |s| && s[u] == '@' && s[u + 1] != ':' then
      Some(MatchHostPort(Some(s[..u]), s[u + 1..]))
    else if s != [] && s[0] != ':' then
      Some(MatchHostPort(None, s))
    else
      None
  }

  /** The user group can only ever have the length of the user-character run. */
  lemma UserAlternativeLength(s: string, k: nat)
    requires UserAlternativeAt(s, k)
    ensures k == Run(s, IsUserChar)
  {
    assert forall i :: 0 <= i < k ==> s[..k][i] == s[i];
    RunIs(s, IsUserChar, k);
  }

  lemma MatchHostPortIsHostPortMatch(user: Option<string>, rest: string)
    requires rest != [] && rest[0] != ':'
    ensures IsHostPortMatch(rest, MatchHostPort(user, rest))
  {
    var m := MatchHostPort(user, rest);
    var h := Run(rest, NotColon);
    RunSpec(rest, NotColon);
    assert m.host == rest[..h];
    assert forall i :: 0 <= i < h ==> m.host[i] != ':';
    if m.port.Some? {
      var d := Run(rest[h + 1..], IsDigit);
      RunSpec(rest[h + 1..], IsDigit);
      assert m.port.value == rest[h + 1..h + 1 + d];
      assert rest[h] == ':';
      assert HostPortPart(m) == rest[..h + 1 + d];
    } else {
      assert HostPortPart(m) == rest[..h];
    }
  }

  /** MatchHost follows Python's regular-expression semantics for the pattern. */
  lemma MatchHostIsLeftmost(s: string)
    ensures MatchHost(s).Some? ==> IsLeftmostMatch(s, MatchHost(s).value)
  {
    var u := Run(s, IsUserChar);
    if 0 < u && u + 1 < |s| && s[u] == '@' && s[u + 1] != ':' {
      UserGroupTaken(s, u);
    } else if s != [] && s[0] != ':' {
      UserGroupSkipped(s, u);
    }
  }

  /** Conversely, whenever the pattern can match at all, MatchHost finds the match. */
  lemma DeclarativeMatchImpliesSome(s: string, m: HostMatch)
    requires IsLeftmostMatch(s, m)
    ensures MatchHost(s).Some?
  {
    var rest := s[|UserPart(m)|..];
    assert HostPortPart(m)[0] == m.host[0];
    assert rest[0] == m.host[0];
    if m.user.Some? {
      assert s[0] == m.user.value[0];
    }
  }

  /** When the user alternative succeeds, the greedy user run is the user group. */
  lemma UserGroupTaken(s: string, u: nat)
    requires u == Run(s, IsUserChar) && 0 < u && u + 1 < |s| && s[u] == '@' && s[u + 1] != ':'
    ensures IsLeftmostMatch(s, MatchHostPort(Some(s[..u]), s[u + 1..]))
  {
    RunSpec(s, IsUserChar);
    assert s[..u + 1] == s[..u] + "@";
    assert AllUserChars(s[..u]);
    MatchHostPortIsHostPortMatch(Some(s[..u]), s[u + 1..]);
  }

  /** When it fails at the greedy length, it fails at every length, and the matcher
      backtracks to no user group at all. */
  lemma UserGroupSkipped(s: string, u: nat)
    requires u == Run(s, IsUserChar) && !(0 < u && u + 1 < |s| && s[u] == '@' && s[u + 1] != ':')
    requires s != [] && s[0] != ':'
    ensures IsLeftmostMatch(s, MatchHostPort(None, s))
  {
    forall k | UserAlternativeAt(s, k) ensures false {
      UserAlternativeLength(s, k);
    }
    MatchHostPortIsHostPortMatch(None, s);
  }

  /** A maximal run of `p` at the start of `s` has the run's length. */
  lemma MaximalPrefixIsRun(s: string, g: string, p: char -> bool)
    requires g <= s && (forall i :: 0 <= i < |g| ==> p(g[i])) && (|g| == |s| || !p(s[|g|]))
    ensures |g| == Run(s, p)
  {
    assert forall i :: 0 <= i < |g| ==> s[i] == g[i];
    RunIs(s, p, |g|);
  }

  /** The port group sits right after the host group and its colon. */
  lemma PortGroupAfterHost(rest: string, m: HostMatch)
    requires IsHostPortMatch(rest, m) && m.port.Some?
    ensures |m.host| + 1 < |rest| && IsDigit(rest[|m.host| + 1])
    ensures m.port.value <= rest[|m.host| + 1..]
    ensures |m.port.value| == |rest[|m.host| + 1..]| || !IsDigit(rest[|m.host| + 1..][|m.port.value|])
  {
    var h := |m.host|;
    var part := HostPortPart(m);
    assert part == m.host + ":" + m.port.value;
    assert m.port.value == part[h + 1..];
    assert part[h + 1..] <= rest[h + 1..];
    assert rest[h + 1] == m.port.value[0];
  }

  /** The host and port groups are determined by the text they are matched against. */
  lemma HostPortMatchUnique(rest: string, m1: HostMatch, m2: HostMatch)
    requires IsHostPortMatch(rest, m1) && IsHostPortMatch(rest, m2)
    ensures m1.host == m2.host && m1.port == m2.port
  {
    assert m1.host <= HostPortPart(m1) && m2.host <= HostPortPart(m2);
    MaximalPrefixIsRun(rest, m1.host, NotColon);
    MaximalPrefixIsRun(rest, m2.host, NotColon);
    assert m1.host == m2.host;
    if m1.port.Some? {
      PortGroupAfterHost(rest, m1);
    }
    if m2.port.Some? {
      PortGroupAfterHost(rest, m2);
    }
    if m1.port.Some? && m2.port.Some? {
      var tail := rest[|m1.host| + 1..];
      MaximalPrefixIsRun(tail, m1.port.value, IsDigit);
      MaximalPrefixIsRun(tail, m2.port.value, IsDigit);
      assert m1.port.value == tail[..|m1.port.value|] == m2.port.value;
    }
  }

  /** At most one match satisfies IsLeftmostMatch: the characterisation pins the groups down. */
  lemma LeftmostMatchUnique(s: string, m1: HostMatch, m2: HostMatch)
    requires IsLeftmostMatch(s, m1) && IsLeftmostMatch(s, m2)
    ensures m1 == m2
  {
    if m1.user.Some? {
      var u1 := m1.user.value;
      assert s[..|u1|] == u1 && s[|u1|] == '@';
      assert s[|u1| + 1..][0] == s[|u1| + 1];
      assert UserAlternativeAt(s, |u1|);
      UserAlternativeLength(s, |u1|);
    }
    if m2.user.Some? {
      var u2 := m2.user.value;
      assert s[..|u2|] == u2 && s[|u2|] == '@';
      assert s[|u2| + 1..][0] == s[|u2| + 1];
      assert UserAlternativeAt(s, |u2|);
      UserAlternativeLength(s, |u2|);
    }
    assert m1.user == m2.user;
    HostPortMatchUnique(s[|UserPart(m1)|..], m1, m2);
  }

  /** An endpoint named by a host token; the port has no range check. */
  datatype HostSpec = HostSpec(user: string, host: string, port: int)

  datatype ParseError = InvalidHostFormat(token: string)

  /** `_parse_host_string`: user defaults to "netdb", port to `defaultPort`; text after the
      match is ignored; a ValueError becomes Failure. */
  function ParseHostString(token: string, defaultPort: int): (r: Result<HostSpec, ParseError>)
    ensures r.Failure? <==> (token == [] || token[0] == ':')
    ensures r.Failure? ==> r.error == InvalidHostFormat(token)
    ensures r.Success? ==> r.value.host != [] && ':' !in r.value.host
    ensures r.Success? ==> r.value.user != [] && AllUserChars(r.value.user)
  {
    match MatchHost(token)
    case None => Failure(InvalidHostFormat(token))
    case Some(m) =>
      MatchHostIsLeftmost(token);
      Success(HostSpec(
        m.user.GetOr(DefaultUser),
        m.host,
        if m.port.Some? then DigitsValue(m.port.value) else defaultPort))
  }
}

/** Properties of `_parse_host_string` stated over the declarative match. */
module HostTokenFacts {
  import opened Wrappers
  import opened Text
  import opened HostToken

  /** `user@host:port` reads back as exactly those three values, whatever the port. */
  lemma ParseFormatted(user: string, host: string, port: nat, defaultPort: int)
    requires user != [] && AllUserChars(user)
    requires host != [] && ':' !in host
    ensures ParseHostString(user + "@" + host + ":" + NatToString(port), defaultPort)
            == Success(HostSpec(user, host, port))
  {
    var digits := NatToString(port);
    var s := user + "@" + host + ":" + digits;
    var m := HostMatch(Some(user), host, Some(digits));
    assert UserPart(m) == user + "@";
    assert s[|user| + 1..] == HostPortPart(m);
    assert IsLeftmostMatch(s, m);
    MatchHostIsLeftmost(s);
    LeftmostMatchUnique(s, MatchHost(s).value, m);
  }

  /** `user@host` takes the default port. */
  lemma ParseWithoutPort(user: string, host: string, defaultPort: int)
    requires user != [] && AllUserChars(user)
    requires host != [] && ':' !in host
    ensures ParseHostString(user + "@" + host, defaultPort) == Success(HostSpec(user, host, defaultPort))
  {
    var s := user + "@" + host;
    var m := HostMatch(Some(user), host, None);
    assert UserPart(m) == user + "@";
    assert s[|user| + 1..] == HostPortPart(m);
    assert IsLeftmostMatch(s, m);
    MatchHostIsLeftmost(s);
    LeftmostMatchUnique(s, MatchHost(s).value, m);
  }

  /** A bare host name takes the default user and the default port. */
  lemma ParseBareHost(host: string, defaultPort: int)
    requires host != [] && ':' !in host && '@' !in host
    ensures ParseHostString(host, defaultPort) == Success(HostSpec(DefaultUser, host, defaultPort))
  {
    var m := HostMatch(None, host, None);
    assert forall k :: !UserAlternativeAt(host, k);
    assert host[|UserPart(m)|..] == HostPortPart(m);
    assert IsLeftmostMatch(host, m);
    MatchHostIsLeftmost(host);
    LeftmostMatchUnique(host, MatchHost(host).value, m);
  }

  /** A port group, when there is one, starts right after the token's first `:`: neither
      the user part nor the host group holds a colon. */
  lemma PortFollowsFirstColon(token: string)
    requires MatchHost(token).Some?
    ensures MatchHost(token).value.port.Some? ==>
              forall i: nat :: FirstColonAt(token, i) ==> i + 1 < |token| && IsDigit(token[i + 1])
  {
    var m := MatchHost(token).value;
    MatchHostIsLeftmost(token);
    if m.port.Some? {
      LeftmostPortAfterFirstColon(token, m);
    }
  }

  /** In a match with a port group, the `:` before it is the first of the token. */
  lemma LeftmostPortAfterFirstColon(s: string, m: HostMatch)
    requires IsLeftmostMatch(s, m) && m.port.Some?
    ensures var j := |UserPart(m)| + |m.host|;
      FirstColonAt(s, j) && j + 1 < |s| && IsDigit(s[j + 1])
  {
    var u := |UserPart(m)|;
    var j := u + |m.host|;
    var hp := HostPortPart(m);
    assert s[u..][..|hp|] == hp;
    assert hp[|m.host|] == ':' && hp[|m.host| + 1] == m.port.value[0];
    assert s[j] == ':' && s[j + 1] == m.port.value[0];
    forall k | 0 <= k < j
      ensures s[k] != ':'
    {
      if k < u {
        assert s[k] == UserPart(m)[k];
      } else {
        assert s[k] == m.host[k - u];
      }
    }
  }

  /** `s[i]` is the first `:` of `s`. */
  predicate FirstColonAt(s: string, i: nat) {
    i < |s| && s[i] == ':' && forall k :: 0 <= k < i ==> s[k] != ':'
  }

  /** The user is "netdb" whenever the user alternative cannot match. The port is the
      default whenever the token holds no `:`, or its first `:` is last or followed by a
      non-digit, as in `node:` and `node:abc`. */
  lemma ParseDefaults(token: string, defaultPort: int)
    requires token != [] && token[0] != ':'
    ensures (forall k :: !UserAlternativeAt(token, k)) ==>
              ParseHostString(token, defaultPort).value.user == DefaultUser
    ensures ':' !in token ==> ParseHostString(token, defaultPort).value.port == defaultPort
    ensures forall i: nat :: FirstColonAt(token, i) && (i + 1 == |token| || !IsDigit(token[i + 1])) ==>
              ParseHostString(token, defaultPort).value.port == defaultPort
  {
    PortFollowsFirstColon(token);
    var m := MatchHost(token).value;
    MatchHostIsLeftmost(token);
    var u := Run(token, IsUserChar);
    if 0 < u && u + 1 < |token| && token[u] == '@' && token[u + 1] != ':' {
      assert AllUserChars(token[..u]);
      assert UserAlternativeAt(token, u);
    }
    if m.port.Some? {
      var rest := token[|UserPart(m)|..];
      assert HostPortPart(m)[|m.host|] == ':';
      assert rest[|m.host|] == ':';
    }
  }

  /** The host and port groups of a match also match the text they consumed, alone. */
  lemma HostPortPartMatchesItself(m: HostMatch)
    requires m.host != [] && ':' !in m.host
    requires m.port.Some? ==> m.port.value != [] && AllDigits(m.port.value)
    ensures IsHostPortMatch(HostPortPart(m), m)
  {
    if m.port.Some? {
      assert HostPortPart(m)[|m.host|] == ':';
    }
  }

  /** Text after the match is ignored: the token parses as the part the pattern consumed. */
  lemma ParseIgnoresTrailingText(token: string, defaultPort: int)
    requires MatchHost(token).Some?
    ensures ParseHostString(Consumed(MatchHost(token).value), defaultPort)
            == ParseHostString(token, defaultPort)
  {
    var m := MatchHost(token).value;
    MatchHostIsLeftmost(token);
    var c := Consumed(m);
    assert c <= token;
    forall k: nat | UserAlternativeAt(c, k) ensures UserAlternativeAt(token, k) {
      assert c[..k] == token[..k];
    }
    assert c[|UserPart(m)|..] == HostPortPart(m);
    HostPortPartMatchesItself(m);
    assert IsLeftmostMatch(c, m);
    MatchHostIsLeftmost(c);
    LeftmostMatchUnique(c, MatchHost(c).value, m);
  }

  lemma PortDigits2222()
    ensures NatToString(2222) == "2222"
  {
    assert NatToString(2) == "2";
    assert NatToString(22) == "22";
    assert NatToString(222) == "222";
  }

  lemma SampleFullToken()
    ensures ParseHostString("alice@node1:2222", 22) == Success(HostSpec("alice", "node1", 2222))
  {
    PortDigits2222();
    assert "alice@node1:2222" == "alice" + "@" + "node1" + ":" + NatToString(2222);
    ParseFormatted("alice", "node1", 2222, 22);
  }

  lemma SampleBareToken()
    ensures ParseHostString("node2", 22) == Success(HostSpec("netdb", "node2", 22))
  {
    ParseBareHost("node2", 22);
  }

  /** A full `user@host:port` token and a bare host, with default port 22. */
  lemma SampleTokens()
    ensures ParseHostString("alice@node1:2222", 22) == Success(HostSpec("alice", "node1", 2222))
    ensures ParseHostString("node2", 22) == Success(HostSpec("netdb", "node2", 22))
  {
    SampleFullToken();
    SampleBareToken();
  }

  /** Backtracking: a user group followed by `@` and then nothing leaves the whole
      token as the host, and so does a user containing a character outside `[\w-]`. */
  lemma BacktrackingTokens()
    ensures ParseHostString("ab@", 22) == Success(HostSpec("netdb", "ab@", 22))
    ensures ParseHostString("a.b@h", 22) == Success(HostSpec("netdb", "a.b@h", 22))
  {
    EmptyHostAfterAt();
    DotInUser();
  }

  lemma EmptyHostAfterAt()
    ensures ParseHostString("ab@", 22) == Success(HostSpec("netdb", "ab@", 22))
  {
    var s := "ab@";
    assert Run(s, IsUserChar) == 2 by { RunIs(s, IsUserChar, 2); }
    assert Run(s, NotColon) == 3 by { RunIs(s, NotColon, 3); }
    assert s[..3] == s;
  }

  lemma DotInUser()
    ensures ParseHostString("a.b@h", 22) == Success(HostSpec("netdb", "a.b@h", 22))
  {
    var s := "a.b@h";
    assert Run(s, IsUserChar) == 1 by { RunIs(s, IsUserChar, 1); }
    assert Run(s, NotColon) == 5 by { RunIs(s, NotColon, 5); }
    assert s[..5] == s;
  }
}
