/**
  Plain string helpers shared by the sweep model: an optional value, Python's
  notion of whitespace, `str.strip()`, `str.split(sep)` with its inverse, and
  POSIX `os.path.join` for two components.
 */
module Text {

  /** A value that may be missing: a time the output did not contain, a
      result file that is absent, a name that does not parse. The `:-`
      operator stops at the first missing one. */
  datatype Option<+T> = None | Some(value: T) {

    predicate IsFailure() {
      None?
    }

    function PropagateFailure<U>(): Option<U>
      requires None?
    {
      None
    }

    function Extract(): T
      requires Some?
    {
      value
    }
  }

  /** Python's `str.isspace()` for one character, which is also what `\s` means
      in a `str` regular expression and what `str.strip()` removes. */
  predicate IsSpace(c: char) {
    var n := c as int;
    || n == 0x20
    || 0x09 <= n <= 0x0D
    || 0x1C <= n <= 0x1F
    || n == 0x85
    || n == 0xA0
    || n == 0x1680
    || 0x2000 <= n <= 0x200A
    || n == 0x2028
    || n == 0x2029
    || n == 0x202F
    || n == 0x205F
    || n == 0x3000
  }

  predicate NoSpace(s: string) {
    forall k :: 0 <= k < |s| ==> !IsSpace(s[k])
  }

  /** `s.lstrip()`: drops the leading whitespace and nothing else. */
  function TrimStart(s: string): (r: string)
    ensures |r| <= |s| && r == s[|s| - |r|..]
    ensures forall k :: 0 <= k < |s| - |r| ==> IsSpace(s[k])
    ensures |r| == 0 || !IsSpace(r[0])
  {
    if |s| > 0 && IsSpace(s[0]) then TrimStart(s[1..]) else s
  }

  /** `s.rstrip()`: drops the trailing whitespace and nothing else. */
  function TrimEnd(s: string): (r: string)
    ensures |r| <= |s| && r == s[..|r|]
    ensures forall k :: |r| <= k < |s| ==> IsSpace(s[k])
    ensures |r| == 0 || !IsSpace(r[|r| - 1])
  {
    if |s| > 0 && IsSpace(s[|s| - 1]) then TrimEnd(s[..|s| - 1]) else s
  }

  /** `s.strip()`: the longest slice of `s` that neither starts nor ends with
      whitespace, everything cut away on either side being whitespace. */
  function Strip(s: string): (r: string)
    ensures |r| == 0 || (!IsSpace(r[0]) && !IsSpace(r[|r| - 1]))
    ensures var i := |s| - |TrimStart(s)|;
      && i + |r| <= |s|
      && r == s[i..i + |r|]
      && (forall k :: 0 <= k < i ==> IsSpace(s[k]))
      && (forall k :: i + |r| <= k < |s| ==> IsSpace(s[k]))
  {
    TrimEnd(TrimStart(s))
  }

  /** Stripping a value that does not start or end with whitespace, after
      whitespace has been appended to it, gives the value back. */
  lemma StripAppendedSpace(v: string, tail: string)
    requires |v| == 0 || (!IsSpace(v[0]) && !IsSpace(v[|v| - 1]))
    requires forall k :: 0 <= k < |tail| ==> IsSpace(tail[k])
    ensures Strip(v + tail) == v
  {
    var s := v + tail;
    if |v| == 0 {
      assert s == tail;
      TrimStartAllSpace(tail);
    } else {
      assert TrimStart(s) == s;
      TrimEndSpaceTail(v, tail);
    }
  }

  lemma {:induction false} TrimStartAllSpace(s: string)
    requires forall k :: 0 <= k < |s| ==> IsSpace(s[k])
    ensures TrimStart(s) == []
  {
    if |s| > 0 {
      TrimStartAllSpace(s[1..]);
    }
  }

  lemma {:induction false} TrimEndSpaceTail(v: string, tail: string)
    requires |v| > 0 && !IsSpace(v[|v| - 1])
    requires forall k :: 0 <= k < |tail| ==> IsSpace(tail[k])
    ensures TrimEnd(v + tail) == v
    decreases |tail|
  {
    if |tail| == 0 {
      assert v + tail == v;
    } else {
      var t' := tail[..|tail| - 1];
      assert (v + tail)[..|v + tail| - 1] == v + t';
      TrimEndSpaceTail(v, t');
    }
  }

  /** Position of the first `c` in `s`. */
  function IndexOf(s: string, c: char): (i: nat)
    requires c in s
    ensures i < |s| && s[i] == c && c !in s[..i]
  {
    if s[0] == c then 0 else 1 + IndexOf(s[1..], c)
  }

  /** Python's `s.split(sep)` for a one-character separator: the pieces
      between consecutive separators, empty ones included. */
  function Split(s: string, sep: char): (r: seq<string>)
    ensures |r| >= 1
    ensures forall k :: 0 <= k < |r| ==> sep !in r[k]
    decreases |s|
  {
    if sep in s then
      var i := IndexOf(s, sep);
      [s[..i]] + Split(s[i + 1..], sep)
    else
      [s]
  }

  /** Python's `sep.join(ws)` for a non-empty list. */
  function Join(ws: seq<string>, sep: char): string
    requires |ws| >= 1
  {
    if |ws| == 1 then ws[0] else ws[0] + ([sep] + Join(ws[1..], sep))
  }

  /** Splitting undoes joining, as long as no piece holds the separator. */
  lemma {:induction false} SplitJoin(ws: seq<string>, sep: char)
    requires |ws| >= 1
    requires forall k :: 0 <= k < |ws| ==> sep !in ws[k]
    ensures Split(Join(ws, sep), sep) == ws
  {
    if |ws| > 1 {
      var w := ws[0];
      var rest := Join(ws[1..], sep);
      var s := w + ([sep] + rest);
      assert s[|w|] == sep;
      assert s[..|w|] == w;
      assert IndexOf(s, sep) == |w|;
      assert s[|w| + 1..] == rest;
      SplitJoin(ws[1..], sep);
    }
  }

  /** Joining undoes splitting. */
  lemma {:induction false} JoinSplit(s: string, sep: char)
    ensures Join(Split(s, sep), sep) == s
    decreases |s|
  {
    if sep in s {
      var i := IndexOf(s, sep);
      var ys := Split(s[i + 1..], sep);
      JoinSplit(s[i + 1..], sep);
      assert Split(s, sep) == [s[..i]] + ys;
      assert ([s[..i]] + ys)[1..] == ys;
      assert Join(Split(s, sep), sep) == s[..i] + ([sep] + Join(ys, sep));
      assert s == s[..i] + ([sep] + s[i + 1..]);
    }
  }

  /** POSIX `os.path.join(dir, name)` for two components. */
  function JoinPath(dir: string, name: string): (r: string)
    ensures |name| <= |r| && r[|r| - |name|..] == name
    ensures (|name| == 0 || name[0] != '/') ==> |dir| <= |r| && r[..|dir|] == dir
  {
    if |name| > 0 && name[0] == '/' then name
    else if |dir| == 0 || dir[|dir| - 1] == '/' then dir + name
    else dir + "/" + name
  }

  /** Within one directory, distinct relative names give distinct paths. */
  lemma JoinPathInjective(dir: string, a: string, b: string)
    requires |a| == 0 || a[0] != '/'
    requires |b| == 0 || b[0] != '/'
    requires JoinPath(dir, a) == JoinPath(dir, b)
    ensures a == b
  {
    var p := JoinPath(dir, a);
    if |dir| == 0 || dir[|dir| - 1] == '/' {
      assert a == p[|dir|..] == b;
    } else {
      assert a == p[|dir| + 1..] == b;
    }
  }
}
