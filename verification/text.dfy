/** The small part of Python's string library the conversion layer relies on:
`lower`, `strip`, `split(sep)`, `splitlines`, `rfind` and the regular-expression
word characters, all restricted to ASCII.
 */
module Text {
  import opened Results

  // ---------------------------------------------------------------------------
  // Character classes

  /** ASCII case folding: 'A'..'Z' become 'a'..'z', everything else is kept. */
  function LowerChar(c: char): char {
    if 'A' <= c <= 'Z' then (c as int + 32) as char else c
  }

  predicate IsUpper(c: char) {
    'A' <= c <= 'Z'
  }

  /** The characters `str.strip()` removes, restricted to ASCII: space, tab,
      line feed, vertical tab, form feed, carriage return and the four
      information separators 0x1C..0x1F. */
  predicate IsSpace(c: char) {
    c == ' ' || ('\t' <= c <= '\r') || ('\U{1C}' <= c <= '\U{1F}')
  }

  /** The regular-expression word characters `\w`, restricted to ASCII. */
  predicate IsWordChar(c: char) {
    ('a' <= c <= 'z') || ('A' <= c <= 'Z') || ('0' <= c <= '9') || c == '_'
  }

  predicate NoUpper(s: string) {
    forall i :: 0 <= i < |s| ==> !IsUpper(s[i])
  }

  predicate AllSpace(s: string) {
    forall i :: 0 <= i < |s| ==> IsSpace(s[i])
  }

  /** Neither end of `s` is white space (what `strip` leaves behind). */
  predicate Trimmed(s: string) {
    s == [] || (!IsSpace(s[0]) && !IsSpace(s[|s| - 1]))
  }

  // ---------------------------------------------------------------------------
  // Case folding

  /** `s.lower()`: same length, every letter folded, nothing upper-case left. */
  function Lower(s: string): (r: string)
    ensures |r| == |s|
    ensures forall i :: 0 <= i < |s| ==> r[i] == LowerChar(s[i])
    ensures NoUpper(r)
  {
    seq(|s|, i requires 0 <= i < |s| => LowerChar(s[i]))
  }

  // ---------------------------------------------------------------------------
  // Searching

  /** `pat` occurs in `s` starting at index `i`. */
  predicate MatchAt(s: string, i: int, pat: string) {
    0 <= i && i + |pat| <= |s| && s[i..i + |pat|] == pat
  }

  predicate Contains(s: string, pat: string) {
    exists i | 0 <= i <= |s| :: MatchAt(s, i, pat)
  }

  /** The first occurrence of `pat` in `s` at or after `from` (`str.find`). */
  function IndexFrom(s: string, pat: string, from: nat): (r: Option<nat>)
    requires from <= |s|
    ensures r.Some? ==> from <= r.value <= |s| && MatchAt(s, r.value, pat)
    ensures r.Some? ==> forall j :: from <= j < r.value ==> !MatchAt(s, j, pat)
    ensures r.None? ==> forall j :: from <= j ==> !MatchAt(s, j, pat)
    decreases |s| - from
  {
    if MatchAt(s, from, pat) then Some(from)
    else if from == |s| then None
    else IndexFrom(s, pat, from + 1)
  }

  function IndexOf(s: string, pat: string): (r: Option<nat>)
    ensures r.Some? ==> r.value <= |s| && MatchAt(s, r.value, pat)
    ensures r.Some? ==> forall j :: 0 <= j < r.value ==> !MatchAt(s, j, pat)
    ensures r.None? <==> !Contains(s, pat)
  {
    IndexFrom(s, pat, 0)
  }

  /** The last index of `c` in `s` (`str.rfind`). */
  function LastIndexOf(s: string, c: char): (r: Option<nat>)
    ensures r.Some? ==> r.value < |s| && s[r.value] == c
    ensures r.Some? ==> forall j :: r.value < j < |s| ==> s[j] != c
    ensures r.None? <==> c !in s
  {
    if s == [] then None
    else if s[|s| - 1] == c then Some(|s| - 1)
    else LastIndexOf(s[..|s| - 1], c)
  }

  // ---------------------------------------------------------------------------
  // Splitting and joining

  /** `s.split(sep)`: cut at every occurrence of `sep`, scanning left to right. */
  function Split(s: string, sep: string): (parts: seq<string>)
    requires |sep| > 0
    ensures |parts| >= 1
    decreases |s|
  {
    match IndexOf(s, sep)
    case None => [s]
    case Some(i) => [s[..i]] + Split(s[i + |sep|..], sep)
  }

  /** `sep.join(parts)`. */
  function Join(parts: seq<string>, sep: string): string
    requires |parts| >= 1
    decreases |parts|
  {
    if |parts| == 1 then parts[0] else parts[0] + sep + Join(parts[1..], sep)
  }

  /** `s.splitlines()` for `\n` line breaks: a final line break does not open
      an empty last line, and the empty string has no lines. */
  function SplitLines(s: string): (lines: seq<string>)
    ensures lines == [] <==> s == []
    ensures lines != [] ==> Join(lines, "\n") == (if s[|s| - 1] == '\n' then s[..|s| - 1] else s)
    ensures forall k :: 0 <= k < |lines| ==> '\n' !in lines[k]
  {
    var parts := Split(s, "\n");
    SplitJoin(s, "\n");
    SplitLastFree(s, "\n");
    SplitPartsFree(s, '\n');
    LinesOfParts(s, parts);
    if parts[|parts| - 1] == "" then parts[..|parts| - 1] else parts
  }

  /** Lines each followed by a line break, concatenated. */
  function Terminated(lines: seq<string>): string {
    if lines == [] then "" else lines[0] + "\n" + Terminated(lines[1..])
  }

  // ---------------------------------------------------------------------------
  // Stripping

  /** `s.lstrip()`: a suffix of `s` whose first character is not space, all of
      the removed prefix being space. */
  function StripLeft(s: string): (r: string)
    ensures |r| <= |s| && r == s[|s| - |r|..]
    ensures r == [] || !IsSpace(r[0])
    ensures AllSpace(s[..|s| - |r|])
  {
    if s != [] && IsSpace(s[0]) then
      var r := StripLeft(s[1..]);
      assert s[..|s| - |r|] == [s[0]] + s[1..][..|s| - 1 - |r|];
      r
    else s
  }

  /** `s.rstrip()`: a prefix of `s` whose last character is not space, all of
      the removed suffix being space. */
  function StripRight(s: string): (r: string)
    ensures |r| <= |s| && r == s[..|r|]
    ensures r == [] || !IsSpace(r[|r| - 1])
    ensures AllSpace(s[|r|..])
  {
    if s != [] && IsSpace(s[|s| - 1]) then
      var r := StripRight(s[..|s| - 1]);
      assert s[|r|..] == s[..|s| - 1][|r|..] + [s[|s| - 1]];
      r
    else s
  }

  /** `s.strip()`. */
  function Trim(s: string): (r: string)
    ensures Trimmed(r)
    ensures |r| <= |s|
  {
    StripRight(StripLeft(s))
  }

  // ---------------------------------------------------------------------------
  // Lemmas

  /** A string without the character `c` has no match of `[c]`. */
  lemma NoCharNoMatch(s: string, c: char)
    ensures !Contains(s, [c]) <==> c !in s
  {
    if c in s {
      var i :| 0 <= i < |s| && s[i] == c;
      assert MatchAt(s, i, [c]);
    }
    if Contains(s, [c]) {
      var i :| 0 <= i <= |s| && MatchAt(s, i, [c]);
      assert s[i..i + 1][0] == s[i];
    }
  }

  /** One step of `Split`: the part before the first separator, then the rest. */
  lemma SplitStep(s: string, sep: string, i: nat)
    requires |sep| > 0
    requires IndexOf(s, sep) == Some(i)
    requires i + |sep| <= |s|
    ensures Split(s, sep) == [s[..i]] + Split(s[i + |sep|..], sep)
  {
  }

  /** Joining the parts of a split with the separator gives back the string. */
  lemma {:induction false} SplitJoin(s: string, sep: string)
    requires |sep| > 0
    ensures Join(Split(s, sep), sep) == s
    decreases |s|
  {
    match IndexOf(s, sep)
    case None =>
    case Some(i) =>
      assert MatchAt(s, i, sep);
      SplitStep(s, sep, i);
      var rest := s[i + |sep|..];
      var tail := Split(rest, sep);
      SplitJoin(rest, sep);
      JoinCons(s[..i], tail, sep);
      assert s[i..i + |sep|] == sep;
      assert s == s[..i] + s[i..i + |sep|] + rest;
  }

  lemma JoinCons(head: string, tail: seq<string>, sep: string)
    requires |tail| >= 1
    ensures Join([head] + tail, sep) == head + sep + Join(tail, sep)
  {
    assert ([head] + tail)[1..] == tail;
  }

  /** When the first occurrence of `sep` in `a + sep + b` is the one after
      `a`, the split starts with `a` and continues with the split of `b`. */
  lemma SplitAfterFirst(a: string, sep: string, b: string)
    requires |sep| > 0
    requires forall j :: 0 <= j < |a| ==> !MatchAt(a + sep + b, j, sep)
    ensures Split(a + sep + b, sep) == [a] + Split(b, sep)
  {
    var s := a + sep + b;
    assert s[|a|..|a| + |sep|] == sep;
    assert MatchAt(s, |a|, sep);
    assert IndexOf(s, sep) == Some(|a|);
    SplitStep(s, sep, |a|);
    assert s[..|a|] == a;
    assert s[|a| + |sep|..] == b;
  }

  /** A string free of the separator splits into itself. */
  lemma SplitNoSeparator(s: string, sep: string)
    requires |sep| > 0
    requires !Contains(s, sep)
    ensures Split(s, sep) == [s]
  {
  }

  /** The last part of a split holds no separator. */
  lemma {:induction false} SplitLastFree(s: string, sep: string)
    requires |sep| > 0
    ensures var parts := Split(s, sep); !Contains(parts[|parts| - 1], sep)
    decreases |s|
  {
    match IndexOf(s, sep)
    case None =>
    case Some(i) =>
      assert MatchAt(s, i, sep);
      SplitStep(s, sep, i);
      SplitLastFree(s[i + |sep|..], sep);
  }

  /** No part of a split on a single character holds that character. */
  lemma {:induction false} SplitPartsFree(s: string, c: char)
    ensures forall k :: 0 <= k < |Split(s, [c])| ==> c !in Split(s, [c])[k]
    decreases |s|
  {
    var parts := Split(s, [c]);
    match IndexOf(s, [c])
    case None =>
      NoCharNoMatch(s, c);
    case Some(i) =>
      assert MatchAt(s, i, [c]);
      SplitStep(s, [c], i);
      SplitPartsFree(s[i + 1..], c);
      forall j | 0 <= j < i
        ensures s[j] != c
      {
        assert !MatchAt(s, j, [c]);
        assert s[j..j + 1] == [s[j]];
      }
      assert c !in s[..i];
      forall k | 0 < k < |parts|
        ensures c !in parts[k]
      {
        assert parts[k] == Split(s[i + 1..], [c])[k - 1];
      }
  }

  /** Joining with one more part appends the separator and that part. */
  lemma {:induction false} JoinSnoc(init: seq<string>, last: string, sep: string)
    requires |init| >= 1
    ensures Join(init + [last], sep) == Join(init, sep) + sep + last
    decreases |init|
  {
    if |init| > 1 {
      assert (init + [last])[1..] == init[1..] + [last];
      JoinSnoc(init[1..], last, sep);
    }
  }

  /** The lines `SplitLines` keeps from the parts of a split on `\n`, joined
      back, give the text less one final line break. */
  lemma LinesOfParts(s: string, parts: seq<string>)
    requires |parts| >= 1 && Join(parts, "\n") == s && !Contains(parts[|parts| - 1], "\n")
    ensures var lines := if parts[|parts| - 1] == "" then parts[..|parts| - 1] else parts;
            (lines == [] <==> s == [])
            && (lines != [] ==> Join(lines, "\n") == (if s[|s| - 1] == '\n' then s[..|s| - 1] else s))
  {
    var n := |parts|;
    var last := parts[n - 1];
    if n >= 2 {
      assert parts == parts[..n - 1] + [last];
      JoinSnoc(parts[..n - 1], last, "\n");
    }
    if last != "" {
      NoCharNoMatch(last, '\n');
      assert s[|s| - 1] == last[|last| - 1];
    }
  }

  /** In `a + [c] + b` with `c` not in `a`, the first `[c]` is the one after `a`. */
  lemma NoEarlierChar(a: string, c: char, b: string)
    requires c !in a
    ensures forall j :: 0 <= j < |a| ==> !MatchAt(a + [c] + b, j, [c])
  {
    forall j | 0 <= j < |a|
      ensures !MatchAt(a + [c] + b, j, [c])
    {
      var s := a + [c] + b;
      assert s[j] == a[j];
    }
  }

  /** Splitting lines inverts terminating them, for lines without breaks. */
  lemma {:induction false} SplitTerminated(lines: seq<string>)
    requires forall k :: 0 <= k < |lines| ==> '\n' !in lines[k]
    ensures Split(Terminated(lines), "\n") == lines + [""]
    decreases |lines|
  {
    if lines == [] {
      assert !MatchAt("", 0, "\n");
      assert IndexOf("", "\n") == None;
    } else {
      var a := lines[0];
      var b := Terminated(lines[1..]);
      calc {
        Split(Terminated(lines), "\n");
        Split(a + "\n" + b, "\n");
        { NoEarlierChar(a, '\n', b); SplitAfterFirst(a, "\n", b); }
        [a] + Split(b, "\n");
        { SplitTerminated(lines[1..]); }
        [a] + (lines[1..] + [""]);
        lines + [""];
      }
    }
  }

  /** `splitlines` recovers the lines of a terminated text. */
  lemma SplitLinesTerminated(lines: seq<string>)
    requires forall k :: 0 <= k < |lines| ==> '\n' !in lines[k]
    ensures SplitLines(Terminated(lines)) == lines
  {
    SplitTerminated(lines);
    assert (lines + [""])[..|lines|] == lines;
  }

  lemma {:induction false} StripLeftSpaces(lead: string, rest: string)
    requires AllSpace(lead)
    requires rest == [] || !IsSpace(rest[0])
    ensures StripLeft(lead + rest) == rest
    decreases |lead|
  {
    if lead != [] {
      assert (lead + rest)[1..] == lead[1..] + rest;
      StripLeftSpaces(lead[1..], rest);
    } else {
      assert lead + rest == rest;
    }
  }

  lemma {:induction false} StripRightSpaces(rest: string, trail: string)
    requires AllSpace(trail)
    requires rest == [] || !IsSpace(rest[|rest| - 1])
    ensures StripRight(rest + trail) == rest
    decreases |trail|
  {
    if trail != [] {
      var t := trail[..|trail| - 1];
      assert (rest + trail)[..|rest + trail| - 1] == rest + t;
      StripRightSpaces(rest, t);
    } else {
      assert rest + trail == rest;
    }
  }

  /** `strip` removes exactly the white space around an already trimmed core. */
  lemma TrimPadded(lead: string, core: string, trail: string)
    requires AllSpace(lead) && AllSpace(trail) && Trimmed(core)
    ensures Trim(lead + core + trail) == core
  {
    if core == [] {
      assert lead + core + trail == (lead + trail) + [];
      StripLeftSpaces(lead + trail, []);
    } else {
      assert lead + core + trail == lead + (core + trail);
      StripLeftSpaces(lead, core + trail);
      StripRightSpaces(core, trail);
    }
  }
}
