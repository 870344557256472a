/** The few JavaScript string primitives the application relies on:
    `String.prototype.trim`, `startsWith` and `split("\n")`.  Strings are
    sequences of UTF-16 code units in JavaScript; here a string is a
    sequence of `char`, one per Unicode code point, so indices count code
    points and a lone surrogate cannot be written down. */
module JsString {

  /** The code points that `trim` removes: ECMAScript's WhiteSpace
      (TAB, VT, FF, SP, NBSP, ZWNBSP and every space separator) and
      LineTerminator (LF, CR, LS, PS). */
  predicate IsSpace(c: char) {
    || c == '\t' || c == '\U{000B}' || c == '\U{000C}' || c == ' '
    || c == '\U{00A0}' || c == '\U{FEFF}' || c == '\U{1680}'
    || ('\U{2000}' <= c <= '\U{200A}')
    || c == '\U{202F}' || c == '\U{205F}' || c == '\U{3000}'
    || IsLineTerminator(c)
  }

  /** ECMAScript LineTerminator; also exactly the characters the regular
      expression atom `.` refuses to match. */
  predicate IsLineTerminator(c: char) {
    c == '\n' || c == '\r' || c == '\U{2028}' || c == '\U{2029}'
  }

  predicate AllSpace(s: string) {
    forall i :: 0 <= i < |s| ==> IsSpace(s[i])
  }

  /** No leading or trailing space: what `trim` returns. */
  predicate IsTrimmed(s: string) {
    |s| == 0 || (!IsSpace(s[0]) && !IsSpace(s[|s| - 1]))
  }

  /** Removes the leading spaces. */
  function TrimStart(s: string): (r: string)
    ensures |r| <= |s| && r == s[|s| - |r|..]
    ensures AllSpace(s[..|s| - |r|])
    ensures |r| == 0 || !IsSpace(r[0])
  {
    if |s| > 0 && IsSpace(s[0]) then TrimStart(s[1..]) else s
  }

  /** Removes the trailing spaces. */
  function TrimEnd(s: string): (r: string)
    ensures |r| <= |s| && r == s[..|r|]
    ensures AllSpace(s[|r|..])
    ensures |r| == 0 || !IsSpace(r[|r| - 1])
  {
    if |s| > 0 && IsSpace(s[|s| - 1]) then TrimEnd(s[..|s| - 1]) else s
  }

  /** `s.trim()`: the longest infix of `s` that neither starts nor ends
      with a space, obtained by dropping an all-space prefix and suffix. */
  function Trim(s: string): (r: string)
    ensures IsTrimmed(r)
    ensures |r| == 0 <==> AllSpace(s)
    ensures exists a, b :: 0 <= a <= b <= |s| && r == s[a..b] && AllSpace(s[..a]) && AllSpace(s[b..])
  {
    var t := TrimStart(s);
    var a := |s| - |t|;
    var r := TrimEnd(t);
    TrimSlices(s, t, r);
    assert r == s[a..a + |r|] && AllSpace(s[..a]) && AllSpace(s[a + |r|..]);
    r
  }

  /** Trimming the end of `s` with its leading spaces removed leaves a
      slice of `s` with only spaces on either side; it is empty exactly
      when `s` is all spaces. */
  lemma TrimSlices(s: string, t: string, r: string)
    requires |t| <= |s| && t == s[|s| - |t|..] && AllSpace(s[..|s| - |t|])
    requires |t| == 0 || !IsSpace(t[0])
    requires |r| <= |t| && r == t[..|r|] && AllSpace(t[|r|..])
    ensures r == s[|s| - |t|..|s| - |t| + |r|]
    ensures AllSpace(s[..|s| - |t|]) && AllSpace(s[|s| - |t| + |r|..])
    ensures |r| == 0 <==> AllSpace(s)
  {
    var a := |s| - |t|;
    SuffixSlices(s, a, |r|);
    if |r| == 0 {
      assert s == s[..a] + t;
      assert AllSpace(t) by { assert t[|r|..] == t; }
    }
    assert AllSpace(s) && |s| > 0 ==> |t| == 0;
  }

  /** Slicing a suffix of `s` is slicing `s` further along. */
  lemma SuffixSlices(s: string, a: nat, n: nat)
    requires a + n <= |s|
    ensures s[a..][..n] == s[a..a + n] && s[a..][n..] == s[a + n..]
  {
  }

  /** Trimming is idempotent: a trimmed string is its own trim. */
  lemma TrimOfTrimmed(s: string)
    requires IsTrimmed(s)
    ensures Trim(s) == s
  {
    if |s| > 0 {
      assert !IsSpace(s[0]) && !IsSpace(s[|s| - 1]);
      assert TrimStart(s) == s;
      assert TrimEnd(s) == s;
    }
  }

  lemma TrimIdempotent(s: string)
    ensures Trim(Trim(s)) == Trim(s)
  {
    TrimOfTrimmed(Trim(s));
  }

  /** The blank test `!s.trim()` used by every form: the string consists
      of spaces only. `BlankIffTrimEmpty` ties it to `Trim`. */
  predicate IsBlank(s: string) {
    AllSpace(s)
  }

  lemma BlankIffTrimEmpty(s: string)
    ensures IsBlank(s) <==> Trim(s) == ""
  {
  }

  /** `s.startsWith(p)`. */
  predicate StartsWith(s: string, p: string) {
    |p| <= |s| && s[..|p|] == p
  }

  /** Number of occurrences of `c` in `s`. */
  function Occurrences(s: string, c: char): nat {
    if |s| == 0 then 0 else (if s[0] == c then 1 else 0) + Occurrences(s[1..], c)
  }

  /** `s.split("\n")`: the pieces between consecutive newlines, including
      the empty leading, trailing and in-between pieces. */
  function Split(s: string): (lines: seq<string>)
    ensures |lines| == Occurrences(s, '\n') + 1
    ensures forall i :: 0 <= i < |lines| ==> '\n' !in lines[i]
    ensures Join(lines) == s
  {
    if |s| == 0 then [""]
    else
      var rest := Split(s[1..]);
      if s[0] == '\n' then
        assert [s[0]] + s[1..] == s;
        [""] + rest
      else
        var lines := [[s[0]] + rest[0]] + rest[1..];
        assert lines[1..] == rest[1..];
        assert Join(lines) == s by {
          if |rest| == 1 {
          } else {
            assert Join(rest) == rest[0] + "\n" + Join(rest[1..]);
            assert Join(lines) == [s[0]] + rest[0] + "\n" + Join(rest[1..]);
          }
          assert [s[0]] + s[1..] == s;
        }
        lines
  }

  /** `lines.join("\n")`, the inverse of `Split`. */
  function Join(lines: seq<string>): string
  {
    if |lines| == 0 then ""
    else if |lines| == 1 then lines[0]
    else lines[0] + "\n" + Join(lines[1..])
  }

  /** Splitting a join of newline-free pieces gives the pieces back, so
      `Split` and `Join` are mutually inverse. */
  lemma {:induction false} SplitJoin(lines: seq<string>)
    requires |lines| >= 1
    requires forall i :: 0 <= i < |lines| ==> '\n' !in lines[i]
    ensures Split(Join(lines)) == lines
  {
    if |lines| == 1 {
      SplitNoNewline(lines[0]);
    } else {
      SplitJoin(lines[1..]);
      SplitPrefix(lines[0], Join(lines[1..]));
      assert [lines[0]] + lines[1..] == lines;
    }
  }

  /** A newline-free string splits into itself. */
  lemma {:induction false} SplitNoNewline(s: string)
    requires '\n' !in s
    ensures Split(s) == [s]
  {
    if |s| > 0 {
      SplitNoNewline(s[1..]);
    }
  }

  /** Splitting `a + "\n" + b` with newline-free `a` yields `a` followed by
      the split of `b`. */
  lemma {:induction false} SplitPrefix(a: string, b: string)
    requires '\n' !in a
    ensures Split(a + "\n" + b) == [a] + Split(b)
  {
    if |a| == 0 {
      assert a + "\n" + b == "\n" + b;
      assert ("\n" + b)[1..] == b;
    } else {
      var s := a + "\n" + b;
      assert s[1..] == a[1..] + "\n" + b;
      SplitPrefix(a[1..], b);
      assert [a[0]] + a[1..] == a;
    }
  }
}
