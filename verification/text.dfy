/** The pieces of Python's `str` behaviour the model relies on. */
module Text {
  import opened Wrappers

  /** Whitespace as Python's `str.isspace()` defines it; `str.strip()` removes exactly these. */
  predicate IsSpace(c: char) {
    c == ' ' || '\t' <= c <= '\r' || '\U{1C}' <= c <= '\U{1F}' || c == '\U{85}' || c == '\U{A0}'
    || c == '\U{1680}' || '\U{2000}' <= c <= '\U{200A}' || c == '\U{2028}' || c == '\U{2029}'
    || c == '\U{202F}' || c == '\U{205F}' || c == '\U{3000}'
  }

  predicate AllSpace(s: string) {
    forall i :: 0 <= i < |s| ==> IsSpace(s[i])
  }

  /** The length of the longest prefix of `s` whose characters all satisfy `p`
      (what a greedy `[...]*` consumes). */
  function Run(s: string, p: char -> bool): (n: nat)
    ensures n <= |s|
  {
    if s != [] && p(s[0]) then 1 + Run(s[1..], p) else 0
  }

  /** What Run measures: the first `Run(s, p)` characters satisfy `p`, and the next one,
      if any, does not. */
  lemma {:induction false} RunSpec(s: string, p: char -> bool)
    ensures forall i :: 0 <= i < Run(s, p) ==> p(s[i])
    ensures Run(s, p) == |s| || !p(s[Run(s, p)])
  {
    if s != [] && p(s[0]) {
      RunSpec(s[1..], p);
      assert forall i :: 1 <= i < Run(s, p) ==> s[i] == s[1..][i - 1];
    }
  }

  /** `n` characters satisfying `p`, followed by the end of `s` or by one that does not,
      are exactly what Run measures. */
  lemma RunIs(s: string, p: char -> bool, n: nat)
    requires n <= |s| && (forall i :: 0 <= i < n ==> p(s[i])) && (n == |s| || !p(s[n]))
    ensures Run(s, p) == n
  {
    if n > 0 {
      assert forall i :: 0 <= i < n - 1 ==> s[1..][i] == s[i + 1];
      RunIs(s[1..], p, n - 1);
    }
  }

  /** A run that stops inside `b`, or right where `b` ends inside `x`, is the run of
      every extension `x` of `b`. */
  lemma {:induction false} RunOfPrefix(b: string, x: string, p: char -> bool)
    requires b <= x
    requires Run(b, p) < |b| || |b| == |x| || !p(x[|b|])
    ensures Run(x, p) == Run(b, p)
  {
    if b != [] {
      assert x[0] == b[0];
      if p(b[0]) {
        assert b[1..] <= x[1..];
        RunOfPrefix(b[1..], x[1..], p);
      }
    }
  }

  /** `s` with its leading whitespace removed. */
  function TrimStart(s: string): (r: string)
    ensures |r| <= |s| && r == s[|s| - |r|..]
    ensures AllSpace(s[..|s| - |r|])
    ensures r == [] || !IsSpace(r[0])
  {
    if s != [] && IsSpace(s[0]) then TrimStart(s[1..]) else s
  }

  /** `s` with its trailing whitespace removed. */
  function TrimEnd(s: string): (r: string)
    ensures |r| <= |s| && r == s[..|r|]
    ensures AllSpace(s[|r|..])
    ensures r == [] || !IsSpace(r[|r| - 1])
  {
    if s != [] && IsSpace(s[|s| - 1]) then
      var r := TrimEnd(s[..|s| - 1]);
      assert s[|r|..] == s[..|s| - 1][|r|..] + [s[|s| - 1]];
      r
    else s
  }

  /** `r` is `s[k..k + |r|]` and everything around it in `s` is whitespace. */
  predicate IsStripOf(s: string, r: string, k: nat) {
    k + |r| <= |s| && r == s[k..k + |r|] && AllSpace(s[..k]) && AllSpace(s[k + |r|..])
  }

  /** `r` is an infix of `s` with whitespace around it and none at either of its own ends. */
  predicate IsTrimmed(s: string, r: string) {
    (exists k: nat :: k <= |s| && IsStripOf(s, r, k)) && (r == [] || (!IsSpace(r[0]) && !IsSpace(r[|r| - 1])))
  }

  /** Python's `s.strip()`: the infix of `s` left after removing whitespace at both ends. */
  function Strip(s: string): (r: string)
    ensures IsTrimmed(s, r)
  {
    var t := TrimStart(s);
    var r := TrimEnd(t);
    assert s[|s| - |t|..][|r|..] == s[|s| - |t| + |r|..];
    assert IsStripOf(s, r, |s| - |t|);
    r
  }

  /** An infix surrounded by whitespace that starts with a non-space starts where the
      leading whitespace ends. */
  lemma StripOfStart(s: string, r: string, k: nat)
    requires IsStripOf(s, r, k) && r != [] && !IsSpace(r[0])
    ensures k == Run(s, IsSpace)
  {
    assert s[k] == r[0];
    assert forall i :: 0 <= i < k ==> s[..k][i] == s[i];
    RunIs(s, IsSpace, k);
  }

  /** An empty infix surrounded by whitespace leaves nothing but whitespace. */
  lemma StripOfEmpty(s: string, k: nat)
    requires IsStripOf(s, [], k)
    ensures AllSpace(s)
  {
    assert forall i :: 0 <= i < |s| ==> (i < k ==> s[..k][i] == s[i]) && (k <= i ==> s[k..][i - k] == s[i]);
  }

  /** Two infixes with whitespace around them and none at their own ends are the same. */
  lemma StripOfUnique(s: string, r: string, k: nat, t: string, j: nat)
    requires IsStripOf(s, r, k) && (r == [] || (!IsSpace(r[0]) && !IsSpace(r[|r| - 1])))
    requires IsStripOf(s, t, j) && (t == [] || (!IsSpace(t[0]) && !IsSpace(t[|t| - 1])))
    ensures r == t
  {
    if r == [] {
      StripOfEmpty(s, k);
    } else if t == [] {
      StripOfEmpty(s, j);
    } else {
      StripOfStart(s, r, k);
      StripOfStart(s, t, j);
    }
  }

  /** Where the trimmed infix starts. */
  lemma TrimmedAt(s: string, r: string) returns (k: nat)
    requires IsTrimmed(s, r)
    ensures k <= |s| && IsStripOf(s, r, k)
  {
    k :| k <= |s| && IsStripOf(s, r, k);
  }

  /** Strip is characterised by its contract: the only infix with whitespace around it and
      no whitespace at either of its own ends. */
  lemma StripUnique(s: string, r: string)
    requires IsTrimmed(s, r)
    ensures Strip(s) == r
  {
    var k := TrimmedAt(s, r);
    var j := TrimmedAt(s, Strip(s));
    StripOfUnique(s, r, k, Strip(s), j);
  }

  /** The text is non-empty and its last character is a line break. */
  predicate EndsWithNewline(s: string) {
    s != [] && s[|s| - 1] == '\n'
  }

  /** `sep` joined between the parts, as Python's `sep.join(parts)`. */
  function Join(parts: seq<string>, sep: char): string {
    if parts == [] then []
    else if |parts| == 1 then parts[0]
    else parts[0] + [sep] + Join(parts[1..], sep)
  }

  /** Python's `s.split(sep)` for a one-character separator: never empty, splits at every `sep`. */
  function Split(s: string, sep: char): (parts: seq<string>)
    ensures |parts| >= 1
    ensures forall i :: 0 <= i < |parts| ==> sep !in parts[i]
    ensures Join(parts, sep) == s
    ensures |parts[0]| <= |s| && parts[0] == s[..|parts[0]|] && (|parts[0]| == |s| || s[|parts[0]|] == sep)
  {
    if s == [] then [[]]
    else
      var rest := Split(s[1..], sep);
      if s[0] == sep then
        assert ([[]] + rest)[1..] == rest;
        [[]] + rest
      else
        var parts := [[s[0]] + rest[0]] + rest[1..];
        assert parts[1..] == rest[1..];
        assert |rest| > 1 ==> Join(rest, sep) == rest[0] + [sep] + Join(rest[1..], sep);
        parts
  }

  /** A string with no `sep` in it splits into itself alone. */
  lemma {:induction false} SplitWithoutSep(s: string, sep: char)
    requires sep !in s
    ensures Split(s, sep) == [s]
  {
    if s != [] {
      SplitWithoutSep(s[1..], sep);
    }
  }

  /** Splitting after a `sep`-free head yields the head and then the split of the tail. */
  lemma {:induction false} SplitAfterHead(head: string, sep: char, tail: string)
    requires sep !in head
    ensures Split(head + [sep] + tail, sep) == [head] + Split(tail, sep)
  {
    var s := head + [sep] + tail;
    if head == [] {
      assert s[1..] == tail;
    } else {
      assert s[1..] == head[1..] + [sep] + tail;
      SplitAfterHead(head[1..], sep, tail);
      assert [head[0]] + head[1..] == head;
    }
  }

  /** Split inverts Join on parts that hold no separator. */
  lemma {:induction false} SplitJoin(parts: seq<string>, sep: char)
    requires |parts| >= 1
    requires forall i :: 0 <= i < |parts| ==> sep !in parts[i]
    ensures Split(Join(parts, sep), sep) == parts
  {
    if |parts| == 1 {
      SplitWithoutSep(parts[0], sep);
    } else {
      SplitAfterHead(parts[0], sep, Join(parts[1..], sep));
      SplitJoin(parts[1..], sep);
      assert [parts[0]] + parts[1..] == parts;
    }
  }

  /** Python's `s.split('\n')[0]`: everything before the first line break. */
  function FirstLine(s: string): (r: string)
    ensures '\n' !in r
    ensures |r| <= |s| && r == s[..|r|] && (|r| == |s| || s[|r|] == '\n')
  {
    Split(s, '\n')[0]
  }

  /** Python's `s.split(sep, 1)` unpacked into two names: None where that unpacking raises. */
  function SplitFirst(s: string, sep: char): (r: Option<(string, string)>)
    ensures r.None? <==> sep !in s
    ensures r.Some? ==> sep !in r.value.0 && s == r.value.0 + [sep] + r.value.1
  {
    if s == [] then None
    else if s[0] == sep then Some(([], s[1..]))
    else
      match SplitFirst(s[1..], sep)
      case None => None
      case Some((a, b)) => Some(([s[0]] + a, b))
  }

  /** SplitFirst inverts joining at a separator the head does not hold. */
  lemma {:induction false} SplitFirstAt(a: string, sep: char, b: string)
    requires sep !in a
    ensures SplitFirst(a + [sep] + b, sep) == Some((a, b))
  {
    if a != [] {
      assert (a + [sep] + b)[1..] == a[1..] + [sep] + b;
      SplitFirstAt(a[1..], sep, b);
      assert [a[0]] + a[1..] == a;
    }
  }

  /** Lower-case folding of the ASCII letters. */
  function LowerChar(c: char): char {
    if 'A' <= c <= 'Z' then (c as int + 32) as char else c
  }

  function Lower(s: string): (r: string)
    ensures |r| == |s|
  {
    seq(|s|, i requires 0 <= i < |s| => LowerChar(s[i]))
  }

  predicate IsDigit(c: char) {
    '0' <= c <= '9'
  }

  predicate AllDigits(s: string) {
    forall i :: 0 <= i < |s| ==> IsDigit(s[i])
  }

  /** Python's `int(s)` on a string of decimal digits. */
  function DigitsValue(s: string): nat
    requires AllDigits(s)
  {
    if s == [] then 0 else DigitsValue(s[..|s| - 1]) * 10 + (s[|s| - 1] as int - '0' as int)
  }

  /** Python's `str(n)` for a natural number: decimal digits, no leading zero. */
  function NatToString(n: nat): (r: string)
    ensures r != [] && AllDigits(r)
    ensures DigitsValue(r) == n
    ensures r[0] == '0' ==> n == 0
    ensures |r| > 1 ==> r[0] != '0'
  {
    if n < 10 then [('0' as int + n) as char]
    else
      var r := NatToString(n / 10) + [('0' as int + n % 10) as char];
      assert r[..|r| - 1] == NatToString(n / 10);
      r
  }

  /** Python's `str(n)` for any integer. */
  function IntToString(n: int): (r: string)
    ensures r != []
    ensures n < 0 <==> r[0] == '-'
    ensures var k := if n < 0 then 1 else 0;
      k < |r| && AllDigits(r[k..]) && DigitsValue(r[k..]) == (if n < 0 then -n else n)
    ensures var k := if n < 0 then 1 else 0;
      |r| > k + 1 ==> r[k] != '0'
    ensures forall i :: 0 <= i < |r| ==> IsDigit(r[i]) || (i == 0 && r[i] == '-')
  {
    if n < 0 then
      var digits := NatToString(-n);
      assert ("-" + digits)[1..] == digits;
      "-" + digits
    else NatToString(n)
  }
}
