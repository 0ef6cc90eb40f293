/** The query-string handling of the static handlers: the `nodes` filter and the `full`
    flag. */
module Query {
  import opened Wrappers
  import opened Text
  import opened Status

  /** `_parse_querystring_list`: an absent or empty value is no filter; otherwise the value,
      stripped of surrounding whitespace, split at every comma. Items are not trimmed. */
  function ParseQuerystringList(value: Option<string>): (r: Option<seq<string>>)
    ensures r.None? <==> value.None? || value.value == ""
    ensures r.Some? ==> Join(r.value, ',') == Strip(value.value)
    ensures r.Some? ==> |r.value| >= 1 && forall i :: 0 <= i < |r.value| ==> ',' !in r.value[i]
  {
    if value.None? || value.value == "" then None else Some(Split(Strip(value.value), ','))
  }

  predicate NoSpace(s: string) {
    forall i :: 0 <= i < |s| ==> !IsSpace(s[i])
  }

  /** The truthy spellings of `full`. */
  predicate IsTruthy(v: string) {
    v == "yes" || v == "true" || v == "1"
  }

  /** `query.get('full', '1').lower() in ("yes", "true", "1")` */
  function FullFlag(value: Option<string>): (full: bool)
    ensures value.None? ==> full
    ensures value.Some? ==> (full <==> IsTruthy(Lower(value.value)))
  {
    IsTruthy(Lower(value.GetOr("1")))
  }

  lemma LowerTwice(s: string)
    ensures Lower(Lower(s)) == Lower(s)
  {
  }

  /** The flag ignores ASCII case, and an absent `full` means full. */
  lemma FullFlagCaseInsensitive(v: string)
    ensures FullFlag(Some(v)) == FullFlag(Some(Lower(v)))
    ensures FullFlag(None)
  {
    LowerTwice(v);
  }

  /** Only values of the lengths of "1", "yes" and "true" turn the flag on; an empty value
      turns it off. */
  lemma FullFlagLengths(v: string)
    ensures FullFlag(Some(v)) ==> |v| == 1 || |v| == 3 || |v| == 4
    ensures !FullFlag(Some(""))
  {
    assert Lower("") == "";
  }

  lemma FullFlagExamples()
    ensures FullFlag(Some("TRUE")) && FullFlag(Some("Yes")) && FullFlag(Some("1"))
    ensures !FullFlag(Some("0")) && !FullFlag(Some("no")) && !FullFlag(Some("on"))
  {
    assert Lower("TRUE") == "true";
    assert Lower("Yes") == "yes";
    assert Lower("1") == "1";
    assert Lower("0") == "0";
    assert Lower("no") == "no";
    assert Lower("on") == "on";
  }

  /** A value with no whitespace at its ends is its own strip. */
  lemma StripOfTrimmed(v: string)
    requires v != [] && !IsSpace(v[0]) && !IsSpace(v[|v| - 1])
    ensures Strip(v) == v
  {
    assert IsStripOf(v, v, 0);
    StripUnique(v, v);
  }

  /** Two comma-free items joined by one comma split back into the two. */
  lemma SplitPair(a: string, c: string)
    requires ',' !in a && ',' !in c
    ensures Split(a + [','] + c, ',') == [a, c]
  {
    SplitWithoutSep(c, ',');
    SplitAfterHead(a, ',', c);
  }

  /** Items keep the spaces that follow commas: `a, b` names `a` and ` b`, so host `b`
      is not admitted by it. */
  lemma SpacesAfterCommasKept(a: string, b: string)
    requires a != [] && b != [] && NoSpace(a) && NoSpace(b)
    requires ',' !in a && ',' !in b
    ensures ParseQuerystringList(Some(a + ", " + b)) == Some([a, " " + b])
  {
    var c := " " + b;
    var v := a + [','] + c;
    assert v == a + ", " + b;
    assert v[0] == a[0] && v[|v| - 1] == b[|b| - 1];
    StripOfTrimmed(v);
    assert ',' !in c;
    SplitPair(a, c);
  }

  /** Every character of a join is the separator or a character of some part. */
  lemma {:induction false} JoinChars(parts: seq<string>, sep: char, i: nat)
    requires i < |Join(parts, sep)|
    ensures Join(parts, sep)[i] == sep || exists p :: p in parts && Join(parts, sep)[i] in p
    decreases |parts|
  {
    var j := Join(parts, sep);
    if |parts| == 1 {
      assert j[i] in parts[0];
    } else {
      var head := parts[0] + [sep];
      if i < |parts[0]| {
        assert j[i] == parts[0][i];
        assert j[i] in parts[0];
      } else if i >= |head| {
        JoinChars(parts[1..], sep, i - |head|);
        assert j[i] == Join(parts[1..], sep)[i - |head|];
        assert forall p :: p in parts[1..] ==> p in parts;
      }
    }
  }

  /** The filter written as a comma-separated list of names without whitespace or commas
      reads back as exactly those names. */
  lemma NodesRoundTrip(names: seq<string>)
    requires |names| >= 1
    requires forall i :: 0 <= i < |names| ==> ',' !in names[i] && NoSpace(names[i])
    requires Join(names, ',') != ""
    ensures ParseQuerystringList(Some(Join(names, ','))) == Some(names)
  {
    var v := Join(names, ',');
    assert NoSpace(v) by {
      forall i | 0 <= i < |v|
        ensures !IsSpace(v[i])
      {
        JoinChars(names, ',', i);
      }
    }
    assert IsStripOf(v, v, 0);
    StripUnique(v, v);
    SplitJoin(names, ',');
  }

  /** A value of whitespace alone is a filter naming only the empty host, which no parsed
      host token yields: every host is hidden. */
  lemma BlankFilterHidesAll(v: string, keys: seq<string>, st: map<string, string>)
    requires v != "" && AllSpace(v)
    requires forall h :: h in keys ==> h in st && h != ""
    ensures ParseQuerystringList(Some(v)) == Some([""])
    ensures Body(keys, st, ParseQuerystringList(Some(v))) == ""
  {
    assert IsStripOf(v, "", 0);
    StripUnique(v, "");
    BodyOfUnlistedHosts(keys, st, [""]);
  }
}
