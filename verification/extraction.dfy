/**
  The search for the measured time in the compute program's standard output:
  Python's `re.search(r"The Execution Time=\s*([\d.]+)", stdout)` and its
  group 1. The time stays text; it is never read as a number.
 */
module Extraction {
  import opened Text
  import opened Decimal

  const Marker: string := "The Execution Time="

  /** A character of the class `[\d.]`. */
  predicate IsTimeChar(c: char) {
    IsDigit(c) || c == '.'
  }

  /** What the capture group can hold: one or more of `[\d.]`. */
  predicate IsTimeText(v: string) {
    |v| > 0 && forall k :: 0 <= k < |v| ==> IsTimeChar(v[k])
  }

  /** The pattern matches at `i`, its `\s*` taking `w` characters and its
      group taking `v`: the literal, then whitespace, then a run of `[\d.]`
      that is maximal, since the greedy `+` stops only where the class does. */
  ghost predicate RegexMatchAt(s: string, i: nat, w: nat, v: string) {
    var j := i + |Marker| + w;
    && j + |v| <= |s|
    && s[i..i + |Marker|] == Marker
    && (forall k :: i + |Marker| <= k < j ==> IsSpace(s[k]))
    && IsTimeText(v)
    && s[j..j + |v|] == v
    && (j + |v| == |s| || !IsTimeChar(s[j + |v|]))
  }

  /** First index at or after `j` that is not whitespace. */
  function SkipSpaces(s: string, j: nat): (e: nat)
    requires j <= |s|
    ensures j <= e <= |s|
    ensures forall k :: j <= k < e ==> IsSpace(s[k])
    ensures e == |s| || !IsSpace(s[e])
    decreases |s| - j
  {
    if j < |s| && IsSpace(s[j]) then SkipSpaces(s, j + 1) else j
  }

  /** First index at or after `j` that is not in `[\d.]`. */
  function TimeRunEnd(s: string, j: nat): (e: nat)
    requires j <= |s|
    ensures j <= e <= |s|
    ensures forall k :: j <= k < e ==> IsTimeChar(s[k])
    ensures e == |s| || !IsTimeChar(s[e])
    decreases |s| - j
  {
    if j < |s| && IsTimeChar(s[j]) then TimeRunEnd(s, j + 1) else j
  }

  /** The group the pattern captures when tried at position `i`, if it
      matches there. */
  function MatchAt(s: string, i: nat): (r: Option<string>)
    requires i <= |s|
    ensures r.Some? ==> IsTimeText(r.value)
  {
    if i + |Marker| <= |s| && s[i..i + |Marker|] == Marker then
      var j := SkipSpaces(s, i + |Marker|);
      var e := TimeRunEnd(s, j);
      if j < e then Some(s[j..e]) else None
    else
      None
  }

  /** `MatchAt` agrees with the regular expression at every position, in both
      directions. */
  lemma MatchAtIsRegexMatch(s: string, i: nat, v: string)
    requires i <= |s|
    ensures MatchAt(s, i) == Some(v) <==> exists w :: RegexMatchAt(s, i, w, v)
  {
    var m := i + |Marker|;
    if MatchAt(s, i) == Some(v) {
      var j := SkipSpaces(s, m);
      assert RegexMatchAt(s, i, j - m, v);
    }
    if w: nat :| RegexMatchAt(s, i, w, v) {
      var j := SkipSpaces(s, m);
      assert s[m + w] == v[0];
      assert IsTimeChar(s[m + w]) && !IsSpace(s[m + w]);
      assert j == m + w;
      var e := TimeRunEnd(s, j);
      assert e == j + |v|;
    }
  }

  /** The leftmost match at or after `from`, as `re.search` finds it. */
  function Search(s: string, from: nat): (r: Option<string>)
    requires from <= |s|
    ensures r.None? <==> forall i :: from <= i <= |s| ==> MatchAt(s, i).None?
    ensures r.Some? ==> exists i :: (from <= i <= |s| && MatchAt(s, i) == r
      && forall j :: from <= j < i ==> MatchAt(s, j).None?)
    decreases |s| - from
  {
    var m := MatchAt(s, from);
    if m.Some? || from == |s| then
      m
    else
      var r := Search(s, from + 1);
      assert forall i :: from <= i <= |s| ==> (MatchAt(s, i).None? <==> i == from || MatchAt(s, i).None?);
      r
  }

  /** The time reported in `stdout`, or `None` when the line is absent. */
  function ExecutionTime(stdout: string): (r: Option<string>)
    ensures r.Some? ==> IsTimeText(r.value) && NoSpace(r.value)
  {
    Search(stdout, 0)
  }

  lemma RegexMatchIsMatchAt(s: string, i: nat, w: nat, u: string)
    requires RegexMatchAt(s, i, w, u)
    ensures i <= |s| && MatchAt(s, i) == Some(u)
  {
    MatchAtIsRegexMatch(s, i, u);
  }

  /** Nothing is extracted exactly when the pattern matches nowhere. */
  lemma NoTimeIffNoMatch(s: string)
    ensures ExecutionTime(s).None? <==> forall i, w, u :: !RegexMatchAt(s, i, w, u)
  {
    if ExecutionTime(s).None? {
      forall i: nat, w: nat, u | RegexMatchAt(s, i, w, u) ensures false {
        RegexMatchIsMatchAt(s, i, w, u);
      }
    } else {
      var i :| 0 <= i <= |s| && MatchAt(s, i) == ExecutionTime(s);
      MatchAtIsRegexMatch(s, i, ExecutionTime(s).value);
    }
  }

  /** No match of the pattern starts before `i`. */
  ghost predicate NoMatchBefore(s: string, i: nat) {
    forall j: nat, w: nat, u: string :: j < i ==> !RegexMatchAt(s, j, w, u)
  }

  /** The pattern's leftmost match has group `v`. */
  ghost predicate LeftmostGroup(s: string, v: string) {
    exists i, w :: RegexMatchAt(s, i, w, v) && NoMatchBefore(s, i)
  }

  lemma NoMatchAtBefore(s: string, i: nat)
    requires i <= |s|
    requires forall j :: 0 <= j < i ==> MatchAt(s, j).None?
    ensures NoMatchBefore(s, i)
  {
    forall j: nat, w: nat, u: string | j < i ensures !RegexMatchAt(s, j, w, u) {
      if RegexMatchAt(s, j, w, u) {
        RegexMatchIsMatchAt(s, j, w, u);
      }
    }
  }

  lemma TimeIsLeftmostGroup(s: string, v: string)
    requires ExecutionTime(s) == Some(v)
    ensures LeftmostGroup(s, v)
  {
    var i :| (0 <= i <= |s| && MatchAt(s, i) == Some(v)
      && forall j :: 0 <= j < i ==> MatchAt(s, j).None?);
    MatchAtIsRegexMatch(s, i, v);
    var w: nat :| RegexMatchAt(s, i, w, v);
    NoMatchAtBefore(s, i);
  }

  lemma LeftmostGroupIsTime(s: string, v: string)
    requires LeftmostGroup(s, v)
    ensures ExecutionTime(s) == Some(v)
  {
    var i: nat, w: nat :| RegexMatchAt(s, i, w, v) && NoMatchBefore(s, i);
    RegexMatchIsMatchAt(s, i, w, v);
    var r := ExecutionTime(s);
    var i' :| (0 <= i' <= |s| && MatchAt(s, i') == r
      && forall j :: 0 <= j < i' ==> MatchAt(s, j).None?);
    MatchAtIsRegexMatch(s, i', r.value);
    var w': nat :| RegexMatchAt(s, i', w', r.value);
    assert i' == i;
  }

  /** The extracted time is exactly the group of the pattern's leftmost
      match, in both directions. */
  lemma TimeIsLeftmostMatch(s: string, v: string)
    ensures ExecutionTime(s) == Some(v) <==> LeftmostGroup(s, v)
  {
    if ExecutionTime(s) == Some(v) {
      TimeIsLeftmostGroup(s, v);
    }
    if LeftmostGroup(s, v) {
      LeftmostGroupIsTime(s, v);
    }
  }

  /** The single-line example: the time right after the marker. */
  lemma ExtractsPlainTime()
    ensures ExecutionTime("The Execution Time=3.14159") == Some("3.14159")
  {
    var s := "The Execution Time=3.14159";
    assert s[0..|Marker|] == Marker;
    assert SkipSpaces(s, 19) == 19;
    assert TimeRunEnd(s, 19) == 26;
    assert s[19..26] == "3.14159";
  }

  /** Whitespace between the marker and the number is skipped, and the line
      break after the number ends it. */
  lemma ExtractsSpacedTime()
    ensures ExecutionTime("The Execution Time= 0.5\n") == Some("0.5")
  {
    var s := "The Execution Time= 0.5\n";
    assert s[0..|Marker|] == Marker;
    assert SkipSpaces(s, 19) == 20;
    assert TimeRunEnd(s, 20) == 23;
    assert s[20..23] == "0.5";
  }
}
