/** The JavaScript string built-ins the header parser is made of: `split` on a
    one-character separator, `Array.prototype.join`, and `trim`. Strings are
    sequences of code points, where JavaScript uses UTF-16 units. The pieces
    are the same either way: the separators used (`","` and `"\n"`) and every
    character `trim` removes lie in the Basic Multilingual Plane, and no half
    of a surrogate pair equals one of them. */
module JsStrings {

  /** The characters `String.prototype.trim` removes: ECMAScript's WhiteSpace
      (tab, vertical tab, form feed, space, no-break space, byte order mark and
      the Unicode space separators) and LineTerminator (LF, CR, LS, PS). */
  predicate IsTrimmable(c: char) {
    c == '\t' || c == '\U{000B}' || c == '\U{000C}' || c == ' ' || c == '\U{00A0}' || c == '\U{FEFF}'
    || c == '\U{1680}' || ('\U{2000}' <= c <= '\U{200A}') || c == '\U{202F}' || c == '\U{205F}' || c == '\U{3000}'
    || c == '\n' || c == '\r' || c == '\U{2028}' || c == '\U{2029}'
  }

  predicate AllTrimmable(s: string) {
    forall k :: 0 <= k < |s| ==> IsTrimmable(s[k])
  }

  /** Neither end of `s` is a character `trim` would remove. */
  predicate IsTrimmed(s: string) {
    s == [] || (!IsTrimmable(s[0]) && !IsTrimmable(s[|s| - 1]))
  }

  /** Position of the first `c` in `s`, or `|s|` when there is none. */
  function FirstIndex(s: string, c: char): (i: nat)
    ensures i <= |s|
    ensures forall k :: 0 <= k < i ==> s[k] != c
    ensures i < |s| ==> s[i] == c
  {
    if s == [] || s[0] == c then 0 else 1 + FirstIndex(s[1..], c)
  }

  /** The two facts above pin the position down. */
  lemma FirstIndexUnique(s: string, c: char, i: nat)
    requires i <= |s|
    requires forall k :: 0 <= k < i ==> s[k] != c
    requires i < |s| ==> s[i] == c
    ensures FirstIndex(s, c) == i
  {
  }

  /** `s.split(sep)`: the pieces between occurrences of `sep`, left to right.
      There is always at least one piece (`"".split(",")` is `[""]`), and
      the first piece is everything before the first `sep`. */
  function Split(s: string, sep: char): (parts: seq<string>)
    ensures |parts| >= 1
    ensures parts[0] == s[..FirstIndex(s, sep)]
    ensures forall k :: 0 <= k < |parts| ==> sep !in parts[k]
    decreases |s|
  {
    var i := FirstIndex(s, sep);
    if i == |s| then [s] else [s[..i]] + Split(s[i + 1..], sep)
  }

  /** `parts.join(sep)`: the empty string for no parts. Otherwise the join
      starts with the first part and ends with the last one. */
  function Join(parts: seq<string>, sep: string): (r: string)
    ensures |parts| == 0 ==> r == []
    ensures |parts| >= 1 ==> parts[0] <= r
    decreases |parts|
  {
    if |parts| == 0 then ""
    else if |parts| == 1 then parts[0]
    else parts[0] + sep + Join(parts[1..], sep)
  }

  /** A string is the text before position i, the character there, and the rest. */
  lemma CutAt(s: string, i: nat)
    requires i < |s|
    ensures s == s[..i] + [s[i]] + s[i + 1..]
  {
  }

  lemma JoinCons(head: string, rest: seq<string>, sep: string)
    requires |rest| >= 1
    ensures Join([head] + rest, sep) == head + sep + Join(rest, sep)
  {
    assert ([head] + rest)[1..] == rest;
  }

  /** Joining the pieces with the separator gives back the string split. */
  lemma {:induction false} JoinSplit(s: string, sep: char)
    ensures Join(Split(s, sep), [sep]) == s
    decreases |s|
  {
    var i := FirstIndex(s, sep);
    if i < |s| {
      var rest := Split(s[i + 1..], sep);
      JoinSplit(s[i + 1..], sep);
      JoinCons(s[..i], rest, [sep]);
      CutAt(s, i);
    }
  }

  /** Splitting a join of separator-free pieces gives back the pieces. */
  lemma {:induction false} SplitJoin(parts: seq<string>, sep: char)
    requires |parts| >= 1
    requires forall k :: 0 <= k < |parts| ==> sep !in parts[k]
    ensures Split(Join(parts, [sep]), sep) == parts
    decreases |parts|
  {
    var s := Join(parts, [sep]);
    if |parts| == 1 {
      FirstIndexUnique(s, sep, |s|);
    } else {
      var tail := Join(parts[1..], [sep]);
      assert s == parts[0] + [sep] + tail;
      FirstIndexUnique(s, sep, |parts[0]|);
      assert s[..|parts[0]|] == parts[0];
      assert s[|parts[0]| + 1..] == tail;
      SplitJoin(parts[1..], sep);
    }
  }

  function TrimStart(s: string): (r: string)
    ensures |r| <= |s|
    ensures r == [] || !IsTrimmable(r[0])
    decreases |s|
  {
    if s != [] && IsTrimmable(s[0]) then TrimStart(s[1..]) else s
  }

  function TrimEnd(s: string): (r: string)
    ensures r <= s
    ensures r == [] || !IsTrimmable(r[|r| - 1])
    decreases |s|
  {
    if s != [] && IsTrimmable(s[|s| - 1]) then TrimEnd(s[..|s| - 1]) else s
  }

  /** `s.trim()`: drops trimmable characters from both ends. */
  function Trim(s: string): (r: string)
    ensures |r| <= |s|
    ensures IsTrimmed(r)
  {
    TrimEnd(TrimStart(s))
  }

  /** TrimStart removes a trimmable prefix. */
  lemma {:induction false} TrimStartSplit(s: string) returns (lead: string)
    ensures s == lead + TrimStart(s) && AllTrimmable(lead)
    decreases |s|
  {
    if s != [] && IsTrimmable(s[0]) {
      var rest := TrimStartSplit(s[1..]);
      lead := [s[0]] + rest;
      assert s == [s[0]] + s[1..];
    } else {
      lead := [];
    }
  }

  /** TrimEnd removes a trimmable suffix. */
  lemma {:induction false} TrimEndSplit(s: string) returns (trail: string)
    ensures s == TrimEnd(s) + trail && AllTrimmable(trail)
    decreases |s|
  {
    if s != [] && IsTrimmable(s[|s| - 1]) {
      var rest := TrimEndSplit(s[..|s| - 1]);
      trail := rest + [s[|s| - 1]];
      assert s == s[..|s| - 1] + [s[|s| - 1]];
    } else {
      trail := [];
    }
  }

  /** What `trim` removes is trimmable, and it removes only from the ends. */
  lemma TrimDecompose(s: string) returns (lead: string, trail: string)
    ensures s == lead + Trim(s) + trail
    ensures AllTrimmable(lead) && AllTrimmable(trail)
  {
    lead := TrimStartSplit(s);
    trail := TrimEndSplit(TrimStart(s));
  }

  lemma {:induction false} TrimStartLead(lead: string, rest: string)
    requires AllTrimmable(lead)
    requires rest == [] || !IsTrimmable(rest[0])
    ensures TrimStart(lead + rest) == rest
    decreases |lead|
  {
    if lead == [] {
      assert lead + rest == rest;
    } else {
      assert (lead + rest)[1..] == lead[1..] + rest;
      TrimStartLead(lead[1..], rest);
    }
  }

  lemma {:induction false} TrimEndTrail(body: string, trail: string)
    requires AllTrimmable(trail)
    requires body == [] || !IsTrimmable(body[|body| - 1])
    ensures TrimEnd(body + trail) == body
    decreases |trail|
  {
    if trail == [] {
      assert body + trail == body;
    } else {
      var shorter := trail[..|trail| - 1];
      assert (body + trail)[..|body + trail| - 1] == body + shorter;
      TrimEndTrail(body, shorter);
    }
  }

  /** Conversely, `trim` of a trimmed text wrapped in trimmable characters is
      that text: with TrimDecompose, this characterises `trim` completely. */
  lemma TrimExact(lead: string, m: string, trail: string)
    requires AllTrimmable(lead) && AllTrimmable(trail) && IsTrimmed(m)
    ensures Trim(lead + m + trail) == m
  {
    if m == [] {
      assert lead + m + trail == (lead + trail) + [];
      TrimStartLead(lead + trail, []);
    } else {
      assert lead + m + trail == lead + (m + trail);
      TrimStartLead(lead, m + trail);
      TrimEndTrail(m, trail);
    }
  }

  /** `trim` leaves an already trimmed text alone. */
  lemma TrimmedUnchanged(s: string)
    requires IsTrimmed(s)
    ensures Trim(s) == s
  {
    assert s == [] + s + [];
    TrimExact([], s, []);
  }
}
