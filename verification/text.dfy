/** Python `str` operations the core relies on: `strip`, `lower`, `startswith`, `in`,
    `split`, `join` and `replace`, over Dafny strings (sequences of Unicode scalar values). */
module Text {
  import opened Wrappers

  /** Python's `str.isspace` for one character: the ASCII separators and controls
      \t \n \v \f \r, the information separators U+001C..U+001F, and the Unicode
      spaces. `strip()` and the regular-expression class `\s` both use this set. */
  predicate IsSpace(c: char) {
    c == ' ' || '\t' <= c <= '\r' || '\U{1C}' <= c <= '\U{1F}'
    || c == '\U{85}' || c == '\U{A0}' || c == '\U{1680}'
    || '\U{2000}' <= c <= '\U{200A}' || c == '\U{2028}' || c == '\U{2029}'
    || c == '\U{202F}' || c == '\U{205F}' || c == '\U{3000}'
  }

  predicate IsAsciiDigit(c: char) {
    '0' <= c <= '9'
  }

  predicate IsAscii(s: string) {
    forall i :: 0 <= i < |s| ==> s[i] < '\U{80}'
  }

  /** `s` with its leading whitespace removed. */
  function TrimLeft(s: string): (r: string)
    ensures |r| <= |s| && r == s[|s| - |r|..]
    ensures |r| > 0 ==> !IsSpace(r[0])
    ensures forall i :: 0 <= i < |s| - |r| ==> IsSpace(s[i])
  {
    if |s| > 0 && IsSpace(s[0]) then TrimLeft(s[1..]) else s
  }

  /** `s` with its trailing whitespace removed. */
  function TrimRight(s: string): (r: string)
    ensures |r| <= |s| && r == s[..|r|]
    ensures |r| > 0 ==> !IsSpace(r[|r| - 1])
    ensures forall i :: |r| <= i < |s| ==> IsSpace(s[i])
  {
    if |s| > 0 && IsSpace(s[|s| - 1]) then TrimRight(s[..|s| - 1]) else s
  }

  /** Python's `str.strip()`: leading and trailing whitespace removed. */
  function Strip(s: string): (r: string)
    ensures |r| <= |s|
    ensures |r| > 0 ==> !IsSpace(r[0]) && !IsSpace(r[|r| - 1])
  {
    TrimRight(TrimLeft(s))
  }

  /** What `strip` keeps: a slice `s[a..b]` of the input, with everything cut off on
      either side whitespace. */
  lemma StripTrims(s: string)
    ensures exists a :: IsTrimOf(s, Strip(s), a)
  {
    var left := TrimLeft(s);
    var both := TrimRight(left);
    TrimBoth(s, left, both);
    assert IsTrimOf(s, Strip(s), |s| - |left|);
  }

  /** A right trim of a left trim cuts only whitespace from either end. */
  lemma TrimBoth(s: string, left: string, both: string)
    requires |left| <= |s| && left == s[|s| - |left|..]
    requires forall i :: 0 <= i < |s| - |left| ==> IsSpace(s[i])
    requires |both| <= |left| && both == left[..|both|]
    requires forall i :: |both| <= i < |left| ==> IsSpace(left[i])
    ensures IsTrimOf(s, both, |s| - |left|)
  {
    var a := |s| - |left|;
    assert both == s[a..a + |both|];
    forall i | a + |both| <= i < |s| ensures IsSpace(s[i]) {
      assert s[i] == left[i - a];
    }
  }

  /** `r` is `s[a..a + |r|]` and every character of `s` outside that slice is whitespace. */
  predicate IsTrimOf(s: string, r: string, a: int) {
    && 0 <= a <= |s| - |r|
    && r == s[a..a + |r|]
    && (forall i :: 0 <= i < a ==> IsSpace(s[i]))
    && (forall i :: a + |r| <= i < |s| ==> IsSpace(s[i]))
  }

  /** A string with no whitespace at either end. */
  predicate IsStripped(s: string) {
    |s| > 0 ==> !IsSpace(s[0]) && !IsSpace(s[|s| - 1])
  }

  /** Stripping a string that has no whitespace at either end leaves it unchanged. */
  lemma StripStripped(s: string)
    requires IsStripped(s)
    ensures Strip(s) == s
  {
  }

  /** `strip` is idempotent. */
  lemma StripIdempotent(s: string)
    ensures Strip(Strip(s)) == Strip(s)
  {
    StripStripped(Strip(s));
  }

  /** ASCII part of Python's `str.lower()`. */
  function LowerChar(c: char): (r: char)
    ensures 'A' <= c <= 'Z' ==> r as int == c as int + 32
    ensures !('A' <= c <= 'Z') ==> r == c
  {
    if 'A' <= c <= 'Z' then (c as int + 32) as char else c
  }

  function Lower(s: string): (r: string)
    ensures |r| == |s|
    ensures forall i :: 0 <= i < |s| ==> r[i] == LowerChar(s[i])
  {
    seq(|s|, i requires 0 <= i < |s| => LowerChar(s[i]))
  }

  /** `pat` occurs in `s` starting at index `i`. */
  predicate MatchAt(s: string, pat: string, i: int) {
    0 <= i && i + |pat| <= |s| && s[i..i + |pat|] == pat
  }

  /** Python's `s.startswith(pat)`. */
  predicate StartsWith(s: string, pat: string) {
    |pat| <= |s| && s[..|pat|] == pat
  }

  /** Python's `pat in s`, decided by a left-to-right scan. */
  function Contains(s: string, pat: string): (r: bool)
    ensures r <==> exists i :: MatchAt(s, pat, i)
    decreases |s|
  {
    if StartsWith(s, pat) then
      assert MatchAt(s, pat, 0);
      true
    else if |s| == 0 then
      false
    else
      var r := Contains(s[1..], pat);
      if r then
        var i :| MatchAt(s[1..], pat, i);
        assert MatchAt(s, pat, i + 1);
        true
      else
        assert forall i :: MatchAt(s, pat, i) ==> i > 0 && MatchAt(s[1..], pat, i - 1);
        false
  }

  /** Python's `s.find(pat)`: the index of the leftmost occurrence, `None` for -1. */
  function IndexOf(s: string, pat: string): (r: Option<nat>)
    ensures r.Some? ==> MatchAt(s, pat, r.value)
    ensures r.Some? ==> forall j :: 0 <= j < r.value ==> !MatchAt(s, pat, j)
    ensures r.None? ==> forall j :: !MatchAt(s, pat, j)
    decreases |s|
  {
    if StartsWith(s, pat) then Some(0)
    else if |s| == 0 then None
    else
      match IndexOf(s[1..], pat)
      case None =>
        NoMatchAfterHead(s, pat);
        None
      case Some(i) =>
        FirstMatchAfterHead(s, pat, i);
        Some(i + 1)
  }

  /** A match one place into `s` is a match at the start of its tail. */
  lemma MatchShift(s: string, pat: string, j: nat)
    requires |s| > 0
    ensures MatchAt(s, pat, j + 1) <==> MatchAt(s[1..], pat, j)
  {
    if j + 1 + |pat| <= |s| {
      assert s[j + 1..j + 1 + |pat|] == s[1..][j..j + |pat|];
    }
  }

  lemma NoMatchAfterHead(s: string, pat: string)
    requires |s| > 0 && !StartsWith(s, pat)
    requires forall j :: !MatchAt(s[1..], pat, j)
    ensures forall j :: !MatchAt(s, pat, j)
  {
    forall j ensures !MatchAt(s, pat, j) {
      if j > 0 {
        MatchShift(s, pat, j - 1);
      }
    }
  }

  lemma FirstMatchAfterHead(s: string, pat: string, i: nat)
    requires |s| > 0 && !StartsWith(s, pat)
    requires MatchAt(s[1..], pat, i)
    requires forall j :: 0 <= j < i ==> !MatchAt(s[1..], pat, j)
    ensures MatchAt(s, pat, i + 1)
    ensures forall j :: 0 <= j < i + 1 ==> !MatchAt(s, pat, j)
  {
    MatchShift(s, pat, i);
    forall j | 0 <= j < i + 1 ensures !MatchAt(s, pat, j) {
      if j > 0 {
        MatchShift(s, pat, j - 1);
      }
    }
  }

  /** The first occurrence of a character is found just past a run that lacks it. */
  lemma FirstOccurrence(a: string, c: char, b: string)
    requires forall i :: 0 <= i < |a| ==> a[i] != c
    ensures IndexOf(a + [c] + b, [c]) == Some(|a|)
  {
    var s := a + [c] + b;
    assert s[|a|..|a| + 1] == [c];
    assert MatchAt(s, [c], |a|);
    forall j | 0 <= j < |a| ensures !MatchAt(s, [c], j) {
      assert s[j..j + 1] == [a[j]];
    }
  }

  /** `c` does not occur in `s`. */
  predicate Lacks(s: string, c: char) {
    forall i :: 0 <= i < |s| ==> s[i] != c
  }

  lemma LacksConcat(a: string, b: string, c: char)
    requires Lacks(a, c) && Lacks(b, c)
    ensures Lacks(a + b, c)
  {
    forall i | 0 <= i < |a + b| ensures (a + b)[i] != c {
      if i >= |a| {
        assert (a + b)[i] == b[i - |a|];
      }
    }
  }

  /** Python's `s.split(sep)` for a non-empty separator: the pieces between the
      non-overlapping occurrences of `sep`, found left to right. */
  function Split(s: string, sep: string): (parts: seq<string>)
    requires |sep| > 0
    ensures |parts| >= 1
    ensures forall k :: 0 <= k < |parts| ==> !Contains(parts[k], sep)
    decreases |s|
  {
    match IndexOf(s, sep)
    case None => [s]
    case Some(i) =>
      assert !Contains(s[..i], sep) by {
        forall j | MatchAt(s[..i], sep, j) ensures false {
          assert MatchAt(s, sep, j);
        }
      }
      [s[..i]] + Split(s[i + |sep|..], sep)
  }

  /** Python's `sep.join(parts)`. */
  function Join(parts: seq<string>, sep: string): string {
    if |parts| == 0 then ""
    else if |parts| == 1 then parts[0]
    else parts[0] + sep + Join(parts[1..], sep)
  }

  /** Joining the pieces of a split with the same separator gives back the string. */
  lemma {:induction false} JoinSplit(s: string, sep: string)
    requires |sep| > 0
    ensures Join(Split(s, sep), sep) == s
    decreases |s|
  {
    match IndexOf(s, sep)
    case None =>
    case Some(i) =>
      var rest := s[i + |sep|..];
      var tail := Split(rest, sep);
      assert Split(s, sep) == [s[..i]] + tail;
      JoinSplit(rest, sep);
      assert Join([s[..i]] + tail, sep) == s[..i] + sep + Join(tail, sep);
      assert s == s[..i] + sep + rest;
  }

  /** Splitting `a + sep + b` where the first occurrence of `sep` is the one shown. */
  lemma SplitAtFirst(a: string, sep: string, b: string)
    requires |sep| > 0
    requires forall j :: 0 <= j < |a| ==> !MatchAt(a + sep + b, sep, j)
    ensures Split(a + sep + b, sep) == [a] + Split(b, sep)
  {
    var s := a + sep + b;
    assert MatchAt(s, sep, |a|);
    assert s[..|a|] == a;
    assert s[|a| + |sep|..] == b;
  }

  /** Splitting a string in which `sep` does not occur gives the string alone. */
  lemma SplitNoSep(s: string, sep: string)
    requires |sep| > 0
    requires !Contains(s, sep)
    ensures Split(s, sep) == [s]
  {
  }

  /** Python's `s.replace(pat, rep)` for a non-empty pattern: every non-overlapping
      occurrence, found left to right, is replaced. */
  function ReplaceAll(s: string, pat: string, rep: string): string
    requires |pat| > 0
    decreases |s|
  {
    if |s| < |pat| then s
    else if StartsWith(s, pat) then rep + ReplaceAll(s[|pat|..], pat, rep)
    else [s[0]] + ReplaceAll(s[1..], pat, rep)
  }

  /** A string that lacks the pattern's first character is left untouched by `replace`. */
  lemma {:induction false} ReplaceAbsent(s: string, pat: string, rep: string)
    requires |pat| > 0
    requires forall i :: 0 <= i < |s| ==> s[i] != pat[0]
    ensures ReplaceAll(s, pat, rep) == s
    decreases |s|
  {
    if |s| >= |pat| {
      assert s[..|pat|][0] == s[0];
      ReplaceAbsent(s[1..], pat, rep);
    }
  }

  /** `replace` passes over a prefix that lacks the pattern's first character. */
  lemma {:induction false} ReplaceAfterPrefix(p: string, s: string, pat: string, rep: string)
    requires |pat| > 0
    requires forall i :: 0 <= i < |p| ==> p[i] != pat[0]
    ensures ReplaceAll(p + s, pat, rep) == p + ReplaceAll(s, pat, rep)
    decreases |p|
  {
    if |p| > 0 {
      var t := p + s;
      if |t| < |pat| {
        // too short to hold the pattern: both sides are the input itself
        assert ReplaceAll(s, pat, rep) == s;
      } else {
        assert t[..|pat|][0] == p[0];
        assert !StartsWith(t, pat);
        assert t[1..] == p[1..] + s;
        forall i | 0 <= i < |p[1..]| ensures p[1..][i] != pat[0] {
          assert p[1..][i] == p[i + 1];
        }
        ReplaceAfterPrefix(p[1..], s, pat, rep);
        assert ReplaceAll(t, pat, rep) == [t[0]] + ReplaceAll(t[1..], pat, rep);
        assert p + s == [p[0]] + (p[1..] + s);
      }
    } else {
      assert p + s == s;
    }
  }
}
