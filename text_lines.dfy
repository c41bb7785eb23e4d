/** The two Python `str` operations the element-set parser is built on:
    `strip()` without arguments and `splitlines()` without arguments, over
    Unicode code points and with Python's own character classes. `Join`
    (Python's `sep.join`) is their partner for round-trip statements. */
module TextLines {

  /** Python's `str.isspace` for a single code point: TAB to CR, the
      file/group/record/unit separators, SPACE, NEL, NO-BREAK SPACE, OGHAM
      SPACE MARK, EN QUAD to HAIR SPACE, LINE and PARAGRAPH SEPARATOR, NARROW
      NO-BREAK SPACE, MEDIUM MATHEMATICAL SPACE and IDEOGRAPHIC SPACE. */
  predicate IsSpace(c: char)
  {
    if c <= ' ' then ('\t' <= c <= '\r') || '\U{1C}' <= c
    else if c < '\U{2000}' then c == '\U{85}' || c == '\U{A0}' || c == '\U{1680}'
    else c <= '\U{200A}' || c == '\U{2028}' || c == '\U{2029}' || c == '\U{202F}' || c == '\U{205F}' || c == '\U{3000}'
  }

  /** A code point at which `str.splitlines` ends a line: LF, VT, FF, CR, the
      file/group/record separators, NEL, LINE SEPARATOR and PARAGRAPH SEPARATOR.
      Every one of them is also whitespace. */
  predicate IsLineBreak(c: char)
    ensures IsLineBreak(c) ==> IsSpace(c)
  {
    ('\n' <= c <= '\r') || ('\U{1C}' <= c <= '\U{1E}') || c == '\U{85}'
    || c == '\U{2028}' || c == '\U{2029}'
  }

  ghost predicate AllSpace(s: string)
  {
    forall i :: 0 <= i < |s| ==> IsSpace(s[i])
  }

  ghost predicate NoLineBreak(s: string)
  {
    forall i :: 0 <= i < |s| ==> !IsLineBreak(s[i])
  }

  /** Neither end of `s` is whitespace: the shape `strip` leaves behind. */
  ghost predicate Stripped(s: string)
  {
    s == [] || (!IsSpace(s[0]) && !IsSpace(s[|s| - 1]))
  }

  /** Python's `s.strip()`: whitespace is removed from both ends, one
      character at a time, until neither end is whitespace. The result is
      never longer than the input. */
  function Strip(s: string): (r: string)
    ensures |r| <= |s|
  {
    if s != [] && IsSpace(s[0]) then Strip(s[1..])
    else if s != [] && IsSpace(s[|s| - 1]) then Strip(s[..|s| - 1])
    else s
  }

  /** Neither end of the result of `strip` is whitespace. */
  lemma {:induction false} StripIsStripped(s: string)
    ensures Stripped(Strip(s))
  {
    if s != [] && IsSpace(s[0]) {
      StripIsStripped(s[1..]);
    } else if s != [] && IsSpace(s[|s| - 1]) {
      StripIsStripped(s[..|s| - 1]);
    }
  }

  /** Where the result of `strip` sits in its input: it is the slice of `s`
      starting at offset `i`, and every character of `s` outside that slice
      is whitespace. */
  lemma {:induction false} StripShape(s: string) returns (i: nat)
    ensures i + |Strip(s)| <= |s|
    ensures forall j :: 0 <= j < |Strip(s)| ==> Strip(s)[j] == s[i + j]
    ensures forall j :: 0 <= j < i || i + |Strip(s)| <= j < |s| ==> IsSpace(s[j])
  {
    if s != [] && IsSpace(s[0]) {
      var k := StripShape(s[1..]);
      ShiftFront(s, Strip(s[1..]), k);
      i := k + 1;
    } else if s != [] && IsSpace(s[|s| - 1]) {
      i := StripShape(s[..|s| - 1]);
      ShiftBack(s, s[..|s| - 1], Strip(s[..|s| - 1]), i);
    } else {
      i := 0;
    }
  }

  /** A slice of `s[1..]` at offset `k`, with only whitespace around it, is
      the slice of `s` at offset `k + 1`, with only whitespace around it,
      when `s[0]` is whitespace. */
  lemma ShiftFront(s: string, r: string, k: nat)
    requires s != [] && IsSpace(s[0]) && k + |r| <= |s| - 1
    requires forall j :: 0 <= j < |r| ==> r[j] == s[1..][k + j]
    requires forall j :: 0 <= j < k || k + |r| <= j < |s| - 1 ==> IsSpace(s[1..][j])
    ensures forall j :: 0 <= j < |r| ==> r[j] == s[k + 1 + j]
    ensures forall j :: 0 <= j < k + 1 || k + 1 + |r| <= j < |s| ==> IsSpace(s[j])
  {
    assert forall j :: 1 <= j < |s| ==> s[1..][j - 1] == s[j];
  }

  /** The same, for a slice of `front`, which is `s` without its last
      character, when that character is whitespace. */
  lemma ShiftBack(s: string, front: string, r: string, i: nat)
    requires s != [] && front == s[..|s| - 1] && IsSpace(s[|s| - 1]) && i + |r| <= |front|
    requires forall j :: 0 <= j < |r| ==> r[j] == front[i + j]
    requires forall j :: 0 <= j < i || i + |r| <= j < |front| ==> IsSpace(front[j])
    ensures forall j :: 0 <= j < |r| ==> r[j] == s[i + j]
    ensures forall j :: 0 <= j < i || i + |r| <= j < |s| ==> IsSpace(s[j])
  {
    assert forall j :: 0 <= j < |front| ==> front[j] == s[j];
  }

  /** `strip` is determined by the decomposition its contract describes:
      whatever whitespace surrounds a stripped string, `strip` returns it. */
  lemma StripUnique(a: string, t: string, b: string)
    requires AllSpace(a) && Stripped(t) && AllSpace(b)
    ensures Strip(a + t + b) == t
  {
    var s := a + t + b;
    var r := Strip(s);
    var i := StripShape(s);
    StripIsStripped(s);
    if t != [] {
      assert s[|a|] == t[0];
      assert i == |a|;
      assert s[|a| + |t| - 1] == t[|t| - 1];
      assert |r| == |t|;
      assert forall j :: 0 <= j < |r| ==> r[j] == s[|a| + j] == t[j];
    }
  }

  /** A string that is already stripped is left as it is. */
  lemma StripStripped(t: string)
    requires Stripped(t)
    ensures Strip(t) == t
  {
    StripUnique([], t, []);
    assert [] + t + [] == t;
  }

  /** Whitespace added at either end of a text does not change its `strip`. */
  lemma StripIgnoresOuterSpace(pre: string, s: string, post: string)
    requires AllSpace(pre) && AllSpace(post)
    ensures Strip(pre + s + post) == Strip(s)
  {
    var r := Strip(s);
    var a, b := StripSplit(s);
    StripIsStripped(s);
    AllSpaceConcat(pre, a);
    AllSpaceConcat(b, post);
    Regroup(pre, a, r, b, post);
    StripUnique(pre + a, r, b + post);
  }

  /** `s` is the whitespace `strip` removes in front, the result, and the
      whitespace it removes behind. */
  lemma StripSplit(s: string) returns (a: string, b: string)
    ensures s == a + Strip(s) + b
    ensures AllSpace(a) && AllSpace(b)
  {
    var r := Strip(s);
    var i := StripShape(s);
    a, b := s[..i], s[i + |r|..];
    assert r == s[i..i + |r|];
    assert s == a + r + b;
  }

  lemma Regroup<T>(p: seq<T>, a: seq<T>, r: seq<T>, b: seq<T>, q: seq<T>)
    ensures p + (a + r + b) + q == (p + a) + r + (b + q)
  {
  }

  lemma AllSpaceConcat(x: string, y: string)
    requires AllSpace(x) && AllSpace(y)
    ensures AllSpace(x + y)
  {
    forall i | 0 <= i < |x + y|
      ensures IsSpace((x + y)[i])
    {
      if i < |x| {
        assert (x + y)[i] == x[i];
      } else {
        assert (x + y)[i] == y[i - |x|];
      }
    }
  }

  /** Stripping never introduces a line break. */
  lemma StripKeepsNoLineBreak(s: string)
    requires NoLineBreak(s)
    ensures NoLineBreak(Strip(s))
  {
    var i := StripShape(s);
  }

  /** Index of the first line break of `s`, or `|s|` if there is none. */
  function FirstBreak(s: string): (n: nat)
    ensures n <= |s| && NoLineBreak(s[..n])
    ensures n < |s| ==> IsLineBreak(s[n])
  {
    if s == [] || IsLineBreak(s[0]) then 0 else 1 + FirstBreak(s[1..])
  }

  /** Python's `s.splitlines()`: the lines of `s` without their terminators,
      where CR LF counts as one terminator and a terminator at the very end
      does not start a further, empty line. */
  function SplitLines(s: string): (lines: seq<string>)
    ensures forall k :: 0 <= k < |lines| ==> NoLineBreak(lines[k])
    ensures lines == [] <==> s == []
    decreases |s|
  {
    if s == [] then []
    else
      var n := FirstBreak(s);
      if n == |s| then [s]
      else
        var width := if s[n] == '\r' && n + 1 < |s| && s[n + 1] == '\n' then 2 else 1;
        [s[..n]] + SplitLines(s[n + width..])
  }

  /** The separators `SplitLines` takes apart again: one line-break
      character, or CR LF. */
  predicate IsLineEnding(sep: string)
  {
    (|sep| == 1 && IsLineBreak(sep[0])) || sep == "\r\n"
  }

  /** Python's `sep.join(lines)`. */
  function Join(sep: string, lines: seq<string>): string
  {
    if |lines| == 0 then []
    else if |lines| == 1 then lines[0]
    else lines[0] + sep + Join(sep, lines[1..])
  }

  lemma {:induction false} FirstBreakAt(u: string, v: string)
    requires NoLineBreak(u)
    requires v == [] || IsLineBreak(v[0])
    ensures FirstBreak(u + v) == |u|
  {
    if u == [] {
      assert u + v == v;
    } else {
      assert (u + v)[1..] == u[1..] + v;
      FirstBreakAt(u[1..], v);
    }
  }

  /** Splitting undoes joining with any line ending (LF, CR LF, a lone CR,
      ...), for lines without line breaks whose last line is not empty (an
      empty last line leaves no trace in the joined text). */
  lemma {:induction false} SplitJoin(sep: string, lines: seq<string>)
    requires IsLineEnding(sep)
    requires forall k :: 0 <= k < |lines| ==> NoLineBreak(lines[k])
    requires lines == [] || lines[|lines| - 1] != []
    ensures SplitLines(Join(sep, lines)) == lines
  {
    if |lines| == 1 {
      FirstBreakAt(lines[0], []);
      assert lines[0] + [] == lines[0];
    } else if |lines| > 1 {
      var rest := Join(sep, lines[1..]);
      assert Join(sep, lines) == lines[0] + (sep + rest);
      JoinStart(sep, lines[1..]);
      SplitStep(lines[0], sep, rest);
      SplitJoin(sep, lines[1..]);
      assert lines == [lines[0]] + lines[1..];
    }
  }

  /** A break-free line, a line ending and a non-empty rest split into that
      line followed by the lines of the rest, provided a lone CR is not
      directly followed by LF (which would make the two one CR LF break). */
  lemma SplitStep(u: string, sep: string, rest: string)
    requires NoLineBreak(u) && IsLineEnding(sep) && rest != []
    requires sep == "\r" ==> rest[0] != '\n'
    ensures SplitLines(u + (sep + rest)) == [u] + SplitLines(rest)
  {
    var s := u + (sep + rest);
    var n := |u|;
    FirstBreakAt(u, sep + rest);
    assert s[..n] == u;
    assert s[n] == sep[0];
    assert s[n + 1] == if |sep| == 2 then '\n' else rest[0];
    assert s[n + |sep|..] == rest;
  }

  /** The joined text is not empty, and starts with the first line's first
      character, or with the separator when the first line is empty. */
  lemma JoinStart(sep: string, lines: seq<string>)
    requires |lines| > 0 && sep != [] && lines[|lines| - 1] != []
    ensures Join(sep, lines) != []
    ensures Join(sep, lines)[0] == if lines[0] != [] then lines[0][0] else sep[0]
  {
    if |lines| > 1 {
      assert Join(sep, lines) == lines[0] + (sep + Join(sep, lines[1..]));
    }
  }

  /** An empty last line adds only a separator to the joined text. */
  lemma {:induction false} JoinEmptyLast(sep: string, lines: seq<string>)
    requires |lines| > 0
    ensures Join(sep, lines + [[]]) == Join(sep, lines) + sep
  {
    var longer := lines + [[]];
    assert longer[1..] == lines[1..] + [[]];
    if |lines| == 1 {
      assert longer[1..] == [[]];
    } else {
      JoinEmptyLast(sep, lines[1..]);
      assert Join(sep, longer) == lines[0] + sep + (Join(sep, lines[1..]) + sep);
    }
  }

  /** The joined text ends with the last line's last character. */
  lemma {:induction false} JoinLast(sep: string, lines: seq<string>)
    requires |lines| > 0 && lines[|lines| - 1] != []
    ensures Join(sep, lines) != []
    ensures Join(sep, lines)[|Join(sep, lines)| - 1] == lines[|lines| - 1][|lines[|lines| - 1]| - 1]
  {
    if |lines| > 1 {
      var tail := lines[1..];
      assert tail[|tail| - 1] == lines[|lines| - 1];
      JoinLast(sep, tail);
    }
  }
}
