/** `RE_ANSI.sub('', s)`: removal of ECMA-48 escape sequences, as the pattern
    `\x1B(?:[@-Z\\-_]|\[[0-?]*[ -/]*[@-~])` defines them. */
module Ansi {
  import opened Text

  const Esc: char := '\U{1B}'

  /** An Fe final character: 0x40-0x5A or 0x5C-0x5F (ECMA-48 section 5.3). */
  predicate IsFe(c: char) {
    '@' <= c <= 'Z' || '\\' <= c <= '_'
  }

  /** Control-sequence parameter byte, 0x30-0x3F (ECMA-48 section 5.4). */
  predicate IsParam(c: char) {
    '0' <= c <= '?'
  }

  /** Control-sequence intermediate byte, 0x20-0x2F. */
  predicate IsIntermediate(c: char) {
    ' ' <= c <= '/'
  }

  /** Control-sequence final byte, 0x40-0x7E. */
  predicate IsFinal(c: char) {
    '@' <= c <= '~'
  }

  predicate AllIntermediate(s: string) {
    forall i :: 0 <= i < |s| ==> IsIntermediate(s[i])
  }

  /** The text between `ESC [` and the final byte: parameter bytes, then intermediate bytes. */
  predicate IsCsiBody(b: string) {
    AllIntermediate(b[Run(b, IsParam)..])
  }

  /** `t` is, in full, one sequence the pattern removes. */
  predicate IsEscape(t: string) {
    && |t| >= 2 && t[0] == Esc
    && ((|t| == 2 && IsFe(t[1]))
        || (|t| >= 3 && t[1] == '[' && IsFinal(t[|t| - 1]) && IsCsiBody(t[2..|t| - 1])))
  }

  /** The length of the sequence the pattern matches at the start of `s`, 0 when none. */
  function EscapeLen(s: string): (n: nat)
    ensures n <= |s|
    ensures n > 0 ==> n >= 2 && s[0] == Esc
    ensures n > 2 ==> s[1] == '[' && IsFinal(s[n - 1])
  {
    if |s| >= 2 && s[0] == Esc then
      if IsFe(s[1]) then 2
      else if s[1] == '[' then
        var p := Run(s[2..], IsParam);
        var q := Run(s[2 + p..], IsIntermediate);
        if 2 + p + q < |s| && IsFinal(s[2 + p + q]) then 3 + p + q else 0
      else 0
    else 0
  }

  /** `ESC [`, `p` parameter bytes, `q` intermediate bytes and a final byte form a control
      sequence. */
  lemma CsiIsEscape(t: string, p: nat, q: nat)
    requires |t| == 3 + p + q && t[0] == Esc && t[1] == '[' && IsFinal(t[|t| - 1])
    requires forall i :: 2 <= i < 2 + p ==> IsParam(t[i])
    requires forall i :: 2 + p <= i < 2 + p + q ==> IsIntermediate(t[i])
    ensures IsEscape(t)
  {
    var b := t[2..|t| - 1];
    if p < |b| {
      assert b[p] == t[2 + p];
    }
    RunIs(b, IsParam, p);
    forall i | 0 <= i < q
      ensures IsIntermediate(b[p..][i])
    {
      assert b[p..][i] == t[2 + p + i];
    }
  }

  /** EscapeLen finds a complete sequence when it reports one. */
  lemma EscapeLenIsEscape(s: string)
    requires EscapeLen(s) > 0
    ensures IsEscape(s[..EscapeLen(s)])
  {
    var n := EscapeLen(s);
    var t := s[..n];
    if !IsFe(s[1]) {
      var p := Run(s[2..], IsParam);
      var q := Run(s[2 + p..], IsIntermediate);
      RunSpec(s[2..], IsParam);
      RunSpec(s[2 + p..], IsIntermediate);
      assert n == 3 + p + q;
      forall i | 2 <= i < 2 + p
        ensures IsParam(t[i])
      {
        assert t[i] == s[2..][i - 2];
      }
      forall i | 2 + p <= i < 2 + p + q
        ensures IsIntermediate(t[i])
      {
        assert t[i] == s[2 + p..][i - 2 - p];
      }
      CsiIsEscape(t, p, q);
    }
  }

  /** Parameter and intermediate bytes are never final bytes, so a control sequence ends
      at its first final byte. */
  lemma NoFinalInCsiBody(t: string)
    requires IsEscape(t) && t[1] == '['
    ensures forall i :: 2 <= i < |t| - 1 ==> !IsFinal(t[i])
  {
    var b := t[2..|t| - 1];
    var p := Run(b, IsParam);
    RunSpec(b, IsParam);
    forall i | 2 <= i < |t| - 1
      ensures !IsFinal(t[i])
    {
      assert t[i] == b[i - 2];
      if i - 2 >= p {
        assert b[p..][i - 2 - p] == b[i - 2];
      }
    }
  }

  /** Escape sequences form a prefix-free code: none is a proper prefix of another. */
  lemma EscapePrefixFree(t: string, t2: string)
    requires IsEscape(t) && IsEscape(t2) && t <= t2
    ensures t == t2
  {
    assert t == t2[..|t|];
    if t2[1] == '[' {
      NoFinalInCsiBody(t2);
    }
  }

  /** The runs EscapeLen measures inside a control sequence at the head of `s`. */
  lemma CsiRuns(s: string, k: nat) returns (p: nat)
    requires k <= |s| && IsEscape(s[..k]) && s[1] == '['
    ensures k >= 3 && s[0] == Esc && IsFinal(s[k - 1])
    ensures 2 + p <= k - 1 && Run(s[2..], IsParam) == p && Run(s[2 + p..], IsIntermediate) == k - 3 - p
  {
    var t := s[..k];
    assert k >= 3 && IsCsiBody(t[2..k - 1]);
    var b := t[2..k - 1];
    p := Run(b, IsParam);
    var x := s[2..];
    assert b == s[2..k - 1] == x[..|b|];
    assert x[|b|] == s[k - 1];
    RunOfPrefix(b, x, IsParam);
    var c := b[p..];
    var y := s[2 + p..];
    assert c == y[..|c|];
    assert y[|c|] == s[k - 1];
    RunIs(c, IsIntermediate, |c|);
    RunOfPrefix(c, y, IsIntermediate);
  }

  /** EscapeLen reports the sequence at the head of `s` whenever there is one. */
  lemma EscapeLenFinds(s: string, k: nat)
    requires k <= |s| && IsEscape(s[..k])
    ensures EscapeLen(s) == k
  {
    assert s[..k][0] == s[0] && s[..k][1] == s[1];
    if !IsFe(s[1]) {
      var p := CsiRuns(s, k);
    }
  }

  /** No escape sequence contains a line break. */
  lemma NoNewlineInEscape(t: string, i: nat)
    requires IsEscape(t) && i < |t|
    ensures t[i] != '\n'
  {
    if 2 <= i < |t| - 1 {
      var b := t[2..|t| - 1];
      var p := Run(b, IsParam);
      RunSpec(b, IsParam);
      assert t[i] == b[i - 2];
      if i - 2 < p {
        assert IsParam(b[i - 2]);
      } else {
        assert b[p..][i - 2 - p] == t[i];
        assert IsIntermediate(b[p..][i - 2 - p]);
      }
    }
  }

  /** `RE_ANSI.sub('', s)`: scanning left to right, each sequence the pattern matches is
      dropped and every other character, a malformed ESC included, is kept. */
  function StripAnsi(s: string): (r: string)
    ensures |r| <= |s|
    decreases |s|
  {
    if s == [] then []
    else
      var n := EscapeLen(s);
      if n > 0 then StripAnsi(s[n..]) else [s[0]] + StripAnsi(s[1..])
  }

  /** EscapeLen is exact: a prefix of `s` is an escape sequence precisely when it is as
      long as EscapeLen reports (so 0 means that no prefix is one). */
  lemma EscapeLenSpec(s: string, k: nat)
    requires 0 < k <= |s|
    ensures IsEscape(s[..k]) <==> k == EscapeLen(s)
  {
    if IsEscape(s[..k]) {
      EscapeLenFinds(s, k);
    }
    if k == EscapeLen(s) {
      EscapeLenIsEscape(s);
    }
  }

  /** Text without ESC passes through, in front of whatever follows it. */
  lemma {:induction false} StripPlainPrefix(t: string, s: string)
    requires Esc !in t
    ensures StripAnsi(t + s) == t + StripAnsi(s)
  {
    if t != [] {
      DropFromAppend(t, s, 1);
      assert EscapeLen(t + s) == 0;
      StripStep(t + s, 1);
      StripPlainPrefix(t[1..], s);
      AppendAssoc([t[0]], t[1..], StripAnsi(s));
      assert [t[0]] + t[1..] == t;
    } else {
      assert t + s == s;
    }
  }

  /** Text without ESC comes out unchanged. */
  lemma StripWithoutEsc(t: string)
    requires Esc !in t
    ensures StripAnsi(t) == t
  {
    StripPlainPrefix(t, []);
    assert t + [] == t;
  }

  /** A complete escape sequence at the front is removed. */
  lemma StripEscapePrefix(e: string, s: string)
    requires IsEscape(e)
    ensures StripAnsi(e + s) == StripAnsi(s)
  {
    assert (e + s)[..|e|] == e;
    EscapeLenFinds(e + s, |e|);
    assert (e + s)[|e|..] == s;
  }

  /** An ESC that starts no sequence is kept, and scanning resumes right after it. */
  lemma StripMalformedEsc(s: string)
    requires s != [] && s[0] == Esc
    requires forall k :: 0 < k <= |s| ==> !IsEscape(s[..k])
    ensures StripAnsi(s) == [Esc] + StripAnsi(s[1..])
  {
    if EscapeLen(s) > 0 {
      EscapeLenSpec(s, EscapeLen(s));
    }
  }

  /** `t + u` is cut at a line break: `t` ends with one or `u` starts with one. */
  predicate LineBoundary(t: string, u: string) {
    EndsWithNewline(t) || (u != [] && u[0] == '\n')
  }

  /** Appending after `t` does not change its first `m` characters. */
  lemma PrefixOfAppend(t: string, u: string, m: nat)
    requires m <= |t|
    ensures (t + u)[..m] == t[..m]
  {
  }

  /** A sequence at the head of `t + u` lies within `t` when the cut is at a line break. */
  lemma EscapeInsideBoundary(t: string, u: string, n: nat)
    requires LineBoundary(t, u) && n <= |t + u| && IsEscape((t + u)[..n])
    ensures n <= |t| && (t + u)[..n] == t[..n]
  {
    var e := (t + u)[..n];
    if n > |t| {
      var i := if EndsWithNewline(t) then |t| - 1 else |t|;
      assert e[i] == '\n';
      NoNewlineInEscape(e, i);
    }
    PrefixOfAppend(t, u, n);
  }

  /** No escape sequence straddles a line break, so what is matched at the head of `t`
      does not change when text is appended after a line boundary. */
  lemma EscapeLenStable(t: string, u: string)
    requires LineBoundary(t, u)
    ensures EscapeLen(t + u) == EscapeLen(t)
  {
    var n, m := EscapeLen(t + u), EscapeLen(t);
    if n > 0 {
      EscapeLenIsEscape(t + u);
      EscapeInsideBoundary(t, u, n);
      EscapeLenFinds(t, n);
    } else if m > 0 {
      EscapeLenIsEscape(t);
      PrefixOfAppend(t, u, m);
      EscapeLenFinds(t + u, m);
    }
  }

  lemma AppendAssoc(a: string, b: string, c: string)
    ensures a + (b + c) == (a + b) + c
  {
  }

  lemma DropFromAppend(t: string, u: string, k: nat)
    requires 0 < k <= |t|
    ensures (t + u)[k..] == t[k..] + u && (t + u)[0] == t[0]
  {
  }

  /** One step of the scan: the head of `s` is dropped if it is a sequence, kept otherwise. */
  lemma StripStep(s: string, k: nat)
    requires s != [] && k == (if EscapeLen(s) > 0 then EscapeLen(s) else 1)
    ensures k <= |s|
    ensures StripAnsi(s) == (if EscapeLen(s) > 0 then [] else [s[0]]) + StripAnsi(s[k..])
  {
    if EscapeLen(s) > 0 {
      assert [] + StripAnsi(s[k..]) == StripAnsi(s[k..]);
    }
  }

  /** The first step of the scan over `t + u` keeps or drops the same head as over `t`. */
  lemma StripStepAppend(t: string, u: string, k: nat)
    requires t != [] && LineBoundary(t, u) && k == (if EscapeLen(t) > 0 then EscapeLen(t) else 1)
    ensures k <= |t|
    ensures StripAnsi(t + u) == (if EscapeLen(t) > 0 then [] else [t[0]]) + StripAnsi(t[k..] + u)
  {
    EscapeLenStable(t, u);
    StripStep(t + u, k);
    DropFromAppend(t, u, k);
  }

  /** Dropping a non-empty head keeps the cut at a line boundary. */
  lemma RestAtBoundary(t: string, u: string, k: nat)
    requires 0 < k <= |t| && LineBoundary(t, u)
    ensures t[k..] == [] || LineBoundary(t[k..], u)
  {
    if k < |t| && EndsWithNewline(t) {
      assert t[k..][|t| - k - 1] == t[|t| - 1];
    }
  }

  /** The first step of the scan over `t + u` is the first step over `t`: it keeps or drops
      the same head, and the rest is again cut at a line boundary. */
  lemma StripHeadAtBoundary(t: string, u: string) returns (head: string, rest: string)
    requires t != [] && LineBoundary(t, u)
    ensures |rest| < |t|
    ensures StripAnsi(t + u) == head + StripAnsi(rest + u)
    ensures StripAnsi(t) == head + StripAnsi(rest)
    ensures rest == [] || LineBoundary(rest, u)
  {
    var n := EscapeLen(t);
    var k := if n > 0 then n else 1;
    StripStepAppend(t, u, k);
    StripStep(t, k);
    RestAtBoundary(t, u, k);
    head := if n > 0 then [] else [t[0]];
    rest := t[k..];
  }

  /** Stripping distributes over a concatenation cut at a line boundary. */
  lemma {:induction false} StripConcat(t: string, u: string)
    requires t == [] || LineBoundary(t, u)
    ensures StripAnsi(t + u) == StripAnsi(t) + StripAnsi(u)
    decreases |t|
  {
    if t == [] {
      assert t + u == u;
    } else {
      var head, rest := StripHeadAtBoundary(t, u);
      StripConcat(rest, u);
      AppendAssoc(head, StripAnsi(rest), StripAnsi(u));
    }
  }

  /** Stripping never removes a trailing line break. */
  lemma StripKeepsNewlineEnd(s: string)
    requires EndsWithNewline(s)
    ensures EndsWithNewline(StripAnsi(s))
  {
    var t := s[..|s| - 1];
    assert s == t + "\n";
    StripConcat(t, "\n");
    assert EscapeLen("\n") == 0;
    assert StripAnsi("\n") == "\n" + StripAnsi([]);
  }

  /** Stripping is not idempotent: removing an inner sequence can bring a malformed ESC
      next to a character that completes a new one. */
  lemma StripNotIdempotent()
    ensures var x := [Esc, Esc, '[', '0', 'm', 'A'];
      StripAnsi(x) == [Esc, 'A'] && StripAnsi(StripAnsi(x)) == []
  {
    var x := [Esc, Esc, '[', '0', 'm', 'A'];
    assert EscapeLen(x) == 0;
    assert x[1..] == [Esc] + "[0m" + "A";
    StripEscapePrefix([Esc] + "[0m", "A");
    assert IsEscape([Esc] + "[0m") by {
      assert ([Esc] + "[0m")[2..3] == "0";
      RunIs("0", IsParam, 1);
    }
    StripWithoutEsc("A");
    assert [Esc, 'A'] == [Esc, 'A'] + [];
    StripEscapePrefix([Esc, 'A'], []);
  }
}
