/** The news-markup formatter of components/rich-text-parser.tsx.

    A post is split into lines; each line becomes one block (three header
    levels, a paragraph or a spacing break).  Inside a block the text is
    scanned for bold spans `**…**` and raw-markup spans `[[…]]`, each found
    by its own global regular expression with a lazy body; the two match
    lists are merged by start position and turned into alternating plain
    and formatted segments.  The markup inside `[[…]]` is kept as an opaque
    string. */
module RichText {
  import opened Wrappers
  import opened JsString

  datatype Segment = Plain(text: string) | Bold(content: string) | Rich(html: string)

  datatype Block =
    | H1(segments: seq<Segment>)
    | H2(segments: seq<Segment>)
    | H3(segments: seq<Segment>)
    | Para(segments: seq<Segment>)
    | Break

  // ---------------------------------------------------------------------
  // Lines
  // ---------------------------------------------------------------------

  predicate IsHeaderLine(line: string) {
    StartsWith(line, "# ") || StartsWith(line, "## ") || StartsWith(line, "### ")
  }

  /** One line of `parseContent`: header prefixes are tested first, in the
      order `# `, `## `, `### `, and only then is the line classified as a
      paragraph (non-blank) or a break (blank). */
  function ClassifyLine(line: string): (b: Block)
    ensures b.H1? <==> StartsWith(line, "# ")
    ensures b.H2? <==> StartsWith(line, "## ")
    ensures b.H3? <==> StartsWith(line, "### ")
    ensures b.Para? <==> !IsHeaderLine(line) && !IsBlank(line)
    ensures b.Break? <==> !IsHeaderLine(line) && IsBlank(line)
    ensures b.H1? ==> b.segments == ParseInline(line[2..])
    ensures b.H2? ==> b.segments == ParseInline(line[3..])
    ensures b.H3? ==> b.segments == ParseInline(line[4..])
    ensures b.Para? ==> b.segments == ParseInline(line)
    // leading white space defeats header detection
    ensures |line| > 0 && IsSpace(line[0]) ==> b.Para? || b.Break?
  {
    HeaderPrefixes(line);
    if StartsWith(line, "# ") then H1(ParseInline(line[2..]))
    else if StartsWith(line, "## ") then H2(ParseInline(line[3..]))
    else if StartsWith(line, "### ") then H3(ParseInline(line[4..]))
    else if !IsBlank(line) then Para(ParseInline(line))
    else Break
  }

  /** The three header prefixes exclude one another and none begins with
      a space. */
  lemma HeaderPrefixes(line: string)
    ensures StartsWith(line, "## ") ==> !StartsWith(line, "# ")
    ensures StartsWith(line, "### ") ==> !StartsWith(line, "# ") && !StartsWith(line, "## ")
    ensures |line| > 0 && IsSpace(line[0]) ==> !IsHeaderLine(line)
  {
    if StartsWith(line, "## ") {
      assert line[1] == line[..3][1] == '#';
      assert !StartsWith(line, "# ") by { assert line[..2][1] == line[1]; }
    }
    if StartsWith(line, "### ") {
      assert line[1] == line[..4][1] == '#';
      assert line[2] == line[..4][2] == '#';
      assert !StartsWith(line, "# ") by { assert line[..2][1] == line[1]; }
      assert !StartsWith(line, "## ") by { assert line[..3][2] == line[2]; }
    }
    if |line| > 0 && IsSpace(line[0]) {
      assert !StartsWith(line, "# ") by { if |line| >= 2 { assert line[..2][0] == line[0]; } }
      assert !StartsWith(line, "## ") by { if |line| >= 3 { assert line[..3][0] == line[0]; } }
      assert !StartsWith(line, "### ") by { if |line| >= 4 { assert line[..4][0] == line[0]; } }
    }
  }

  /** `parseContent`: exactly one block per `\n`-separated line, in order. */
  function ParseContent(text: string): (blocks: seq<Block>)
    ensures |blocks| == Occurrences(text, '\n') + 1
    ensures forall i :: 0 <= i < |blocks| ==> blocks[i] == ClassifyLine(Split(text)[i])
  {
    var lines := Split(text);
    seq(|lines|, i requires 0 <= i < |lines| => ClassifyLine(lines[i]))
  }

  /** Joining newline-free lines and parsing the result classifies each of
      the original lines on its own. */
  lemma ParseContentOfLines(lines: seq<string>)
    requires |lines| >= 1
    requires forall i :: 0 <= i < |lines| ==> '\n' !in lines[i]
    ensures |ParseContent(Join(lines))| == |lines|
    ensures forall i :: 0 <= i < |lines| ==> ParseContent(Join(lines))[i] == ClassifyLine(lines[i])
  {
    SplitJoin(lines);
  }

  // ---------------------------------------------------------------------
  // Matches of the two regular expressions
  // ---------------------------------------------------------------------

  datatype Kind = BoldKind | RichKind

  /** Each delimiter is a doubled character: `**` opens and closes bold,
      `[[` opens and `]]` closes raw markup. */
  function OpenChar(k: Kind): char {
    if k == BoldKind then '*' else '['
  }

  function CloseChar(k: Kind): char {
    if k == BoldKind then '*' else ']'
  }

  /** The matched text of a span with the given body. */
  function Wrap(k: Kind, content: string): string {
    [OpenChar(k), OpenChar(k)] + content + [CloseChar(k), CloseChar(k)]
  }

  /** One regex match: the span `[start, end)` of the text and capture
      group 1. */
  datatype Match = Match(start: nat, end: nat, kind: Kind, content: string)

  /** The doubled character `c` occurs in `s` at index `i`. */
  predicate Doubled(s: string, i: int, c: char) {
    0 <= i && i + 2 <= |s| && s[i] == c && s[i + 1] == c
  }

  /** `s[a..b]` consists of characters that `.` matches. */
  predicate Dotted(s: string, a: int, b: int) {
    0 <= a <= b <= |s| && forall k :: a <= k < b ==> !IsLineTerminator(s[k])
  }

  /** `s[p..q + 2]` is an opening delimiter, a body `.*` and a closing
      delimiter at `q`: a candidate match of the pattern at `p`. */
  predicate Candidate(s: string, p: int, q: int, k: Kind) {
    Doubled(s, p, OpenChar(k)) && p + 2 <= q && Dotted(s, p + 2, q) && Doubled(s, q, CloseChar(k))
  }

  /** The lazy `(.*?)` followed by the closing delimiter, tried from body
      position `j`: the first closing delimiter reached before any line
      terminator. */
  function ScanClose(s: string, j: nat, close: char): (r: Option<nat>)
    ensures r.Some? ==> j <= r.value && Dotted(s, j, r.value) && Doubled(s, r.value, close)
    ensures r.Some? ==> forall q :: j <= q < r.value ==> !Doubled(s, q, close)
    ensures r.None? ==> forall q :: j <= q && Dotted(s, j, q) ==> !Doubled(s, q, close)
    decreases |s| - j
  {
    if Doubled(s, j, close) then Some(j)
    else if j < |s| && !IsLineTerminator(s[j]) then
      var r := ScanClose(s, j + 1, close);
      assert r.None? ==> forall q :: j < q && Dotted(s, j, q) ==> Dotted(s, j + 1, q);
      r
    else None
  }

  /** One attempt of the regular expression at position `p`.
      `MatchAtIsShortestCandidate` states what it finds. */
  function MatchAt(s: string, p: nat, k: Kind): (r: Option<Match>)
    ensures r.Some? ==> r.value.start == p && r.value.kind == k
    ensures r.Some? ==> p + 4 <= r.value.end <= |s|
    ensures r.Some? ==> r.value.content == s[p + 2..r.value.end - 2]
  {
    if Doubled(s, p, OpenChar(k)) then
      match ScanClose(s, p + 2, CloseChar(k))
      case Some(q) => Some(Match(p, q + 2, k, s[p + 2..q]))
      case None => None
    else None
  }

  /** The pattern matches at `p` iff some candidate exists there, and the
      match is the shortest candidate, as the lazy `.*?` demands. */
  lemma MatchAtIsShortestCandidate(s: string, p: nat, k: Kind)
    ensures MatchAt(s, p, k).None? <==> forall q :: !Candidate(s, p, q, k)
    ensures MatchAt(s, p, k).Some? ==> Candidate(s, p, MatchAt(s, p, k).value.end - 2, k)
    ensures MatchAt(s, p, k).Some? ==>
              forall q :: q < MatchAt(s, p, k).value.end - 2 ==> !Candidate(s, p, q, k)
  {
    if Doubled(s, p, OpenChar(k)) {
      match ScanClose(s, p + 2, CloseChar(k))
      case Some(q) =>
        assert Candidate(s, p, q, k);
      case None =>
    }
  }

  /** Every match reproduces its text and has a body free of line
      terminators and of the closing delimiter. */
  lemma MatchShape(s: string, p: nat, k: Kind)
    requires MatchAt(s, p, k).Some?
    ensures s[p..MatchAt(s, p, k).value.end] == Wrap(k, MatchAt(s, p, k).value.content)
    ensures forall i :: 0 <= i < |MatchAt(s, p, k).value.content| ==>
              !IsLineTerminator(MatchAt(s, p, k).value.content[i])
    ensures forall i :: !Doubled(MatchAt(s, p, k).value.content, i, CloseChar(k))
  {
    var m := MatchAt(s, p, k).value;
    var q := m.end - 2;
    MatchAtIsShortestCandidate(s, p, k);
    MatchText(s, p, q, k);
    forall i | 0 <= i < |m.content|
      ensures !IsLineTerminator(m.content[i])
    {
      assert m.content[i] == s[p + 2 + i];
    }
    forall i
      ensures !Doubled(m.content, i, CloseChar(k))
    {
      NoInnerClose(s, p, k, i);
    }
  }

  /** The lazy body stops at the first closing delimiter, so none occurs
      inside it. */
  lemma NoInnerClose(s: string, p: nat, k: Kind, i: int)
    requires MatchAt(s, p, k).Some?
    ensures !Doubled(MatchAt(s, p, k).value.content, i, CloseChar(k))
  {
    var m := MatchAt(s, p, k).value;
    MatchAtIsShortestCandidate(s, p, k);
    if Doubled(m.content, i, CloseChar(k)) {
      InnerDelim(s, p, m.end - 2, i, CloseChar(k));
    }
  }

  /** A candidate's text is its delimiters around its body. */
  lemma MatchText(s: string, p: nat, q: nat, k: Kind)
    requires Candidate(s, p, q, k)
    ensures s[p..q + 2] == Wrap(k, s[p + 2..q])
  {
    assert s[p..q + 2] == s[p..p + 2] + s[p + 2..q] + s[q..q + 2];
  }

  /** A delimiter inside a body is a delimiter of the whole text. */
  lemma InnerDelim(s: string, p: nat, q: nat, i: int, c: char)
    requires p + 2 <= q <= |s|
    requires Doubled(s[p + 2..q], i, c)
    ensures Doubled(s, p + 2 + i, c) && p + 2 + i + 2 <= q
  {
    assert s[p + 2..q][i] == s[p + 2 + i];
    assert s[p + 2..q][i + 1] == s[p + 2 + i + 1];
  }

  /** The `while ((m = re.exec(text)) !== null)` loop of a global regular
      expression started at `lastIndex == p`: leftmost matches, each search
      resuming at the end of the previous match. */
  function FindAll(s: string, p: nat, k: Kind): (ms: seq<Match>)
    ensures forall i :: 0 <= i < |ms| ==> p <= ms[i].start < ms[i].end && ms[i].kind == k
    ensures forall i, j :: 0 <= i < j < |ms| ==> ms[i].end <= ms[j].start
    decreases |s| + 1 - p
  {
    if p > |s| then []
    else
      match MatchAt(s, p, k)
      case Some(m) => [m] + FindAll(s, m.end, k)
      case None => FindAll(s, p + 1, k)
  }

  /** No match is missed: every position where the pattern matches lies
      inside one of the matches the loop reports. */
  lemma {:induction false} FindAllComplete(s: string, p: nat, k: Kind, q: nat)
    requires p <= q && MatchAt(s, q, k).Some?
    ensures Covered(FindAll(s, p, k), q)
    decreases |s| + 1 - p
  {
    if p <= |s| {
      FindAllStep(s, p, k);
      var r := MatchAt(s, p, k);
      if r.Some? {
        var m := r.value;
        if m.end <= q {
          FindAllComplete(s, m.end, k, q);
        }
        CoveredCons(m, FindAll(s, m.end, k), q);
      } else {
        FindAllComplete(s, p + 1, k, q);
      }
    }
  }

  /** Every reported match is what the pattern matches at its start. */
  lemma {:induction false} FindAllMatches(s: string, p: nat, k: Kind, x: Match)
    requires x in FindAll(s, p, k)
    ensures MatchAt(s, x.start, k) == Some(x)
    decreases |s| + 1 - p
  {
    if p <= |s| {
      FindAllStep(s, p, k);
      var r := MatchAt(s, p, k);
      if r.Some? {
        if x != r.value {
          FindAllMatches(s, r.value.end, k, x);
        }
      } else {
        FindAllMatches(s, p + 1, k, x);
      }
    }
  }

  /** One iteration of the exec loop. */
  lemma FindAllStep(s: string, p: nat, k: Kind)
    requires p <= |s|
    ensures MatchAt(s, p, k).Some? ==>
              p < MatchAt(s, p, k).value.end
              && FindAll(s, p, k) == [MatchAt(s, p, k).value] + FindAll(s, MatchAt(s, p, k).value.end, k)
    ensures MatchAt(s, p, k).None? ==> FindAll(s, p, k) == FindAll(s, p + 1, k)
  {
  }

  /** A position inside the head's span, or covered by the tail, is
      covered by the whole list. */
  lemma CoveredCons(m: Match, rest: seq<Match>, q: int)
    requires m.start <= q < m.end || Covered(rest, q)
    ensures Covered([m] + rest, q)
  {
    var ms := [m] + rest;
    if !(m.start <= q < m.end) {
      var i :| 0 <= i < |rest| && rest[i].start <= q < rest[i].end;
      assert ms[i + 1] == rest[i];
    } else {
      assert ms[0] == m;
    }
  }

  /** Position `q` lies inside one of the spans of `ms`. */
  predicate Covered(ms: seq<Match>, q: int) {
    exists i :: 0 <= i < |ms| && ms[i].start <= q < ms[i].end
  }

  function Bolds(text: string): seq<Match> {
    FindAll(text, 0, BoldKind)
  }

  function Riches(text: string): seq<Match> {
    FindAll(text, 0, RichKind)
  }

  // ---------------------------------------------------------------------
  // Sorting the matches
  // ---------------------------------------------------------------------

  predicate SortedByStart(ms: seq<Match>) {
    forall i, j :: 0 <= i < j < |ms| ==> ms[i].start <= ms[j].start
  }

  predicate StrictlyByStart(ms: seq<Match>) {
    forall i, j :: 0 <= i < j < |ms| ==> ms[i].start < ms[j].start
  }

  /** Merge of two lists ordered by start; on equal starts the left list
      goes first, as the stable `Array.prototype.sort` keeps the bold
      matches (pushed first) ahead. */
  function Merge(a: seq<Match>, b: seq<Match>): (r: seq<Match>)
    ensures multiset(r) == multiset(a) + multiset(b)
    ensures forall x :: x in r ==> x in a || x in b
    decreases |a| + |b|
  {
    if |a| == 0 then
      assert multiset(a) == multiset{};
      b
    else if |b| == 0 then
      assert multiset(b) == multiset{};
      a
    else if a[0].start <= b[0].start then
      assert a == [a[0]] + a[1..];
      [a[0]] + Merge(a[1..], b)
    else
      assert b == [b[0]] + b[1..];
      [b[0]] + Merge(a, b[1..])
  }

  /** Two lists holding the same matches, each strictly ordered by start,
      are equal: when starts are distinct there is only one sorted order,
      whatever sorting algorithm produced it. */
  lemma {:induction false} SortedPermutationUnique(x: seq<Match>, y: seq<Match>)
    requires StrictlyByStart(x) && StrictlyByStart(y)
    requires multiset(x) == multiset(y)
    ensures x == y
  {
    assert |x| == |multiset(x)| == |multiset(y)| == |y|;
    if |x| > 0 {
      assert x[0] in multiset(y) && y[0] in multiset(x);
      HeadLeast(y, x[0]);
      HeadLeast(x, y[0]);
      SameTails(x, y);
      StrictTail(x);
      StrictTail(y);
      SortedPermutationUnique(x[1..], y[1..]);
      assert x == [x[0]] + x[1..] && y == [y[0]] + y[1..];
    }
  }

  /** The head of a strictly ordered list starts first, and is the only
      element starting there. */
  lemma HeadLeast(l: seq<Match>, v: Match)
    requires StrictlyByStart(l) && v in l
    ensures l[0].start <= v.start
    ensures l[0].start == v.start ==> l[0] == v
  {
    var i :| 0 <= i < |l| && l[i] == v;
    if i > 0 {
      assert l[0].start < l[i].start;
    }
  }

  /** Equal multisets with equal heads have equal tails. */
  lemma SameTails(x: seq<Match>, y: seq<Match>)
    requires |x| > 0 && |y| > 0 && x[0] == y[0]
    requires multiset(x) == multiset(y)
    ensures multiset(x[1..]) == multiset(y[1..])
  {
    assert x == [x[0]] + x[1..] && y == [y[0]] + y[1..];
    assert multiset(x[1..]) == multiset(x) - multiset{x[0]};
    assert multiset(y[1..]) == multiset(y) - multiset{y[0]};
  }

  /** The position of an element known to occur in a list. */
  function IndexOf(l: seq<Match>, v: Match): (i: nat)
    requires v in multiset(l)
    ensures i < |l| && l[i] == v
  {
    if l[0] == v then 0
    else
      assert l == [l[0]] + l[1..];
      1 + IndexOf(l[1..], v)
  }

  /** A bold match starts with `*` and a raw-markup match with `[`, so no
      position starts one of each. */
  lemma KindsNeverShareStart(s: string, p: nat)
    ensures !(MatchAt(s, p, BoldKind).Some? && MatchAt(s, p, RichKind).Some?)
  {
    if MatchAt(s, p, BoldKind).Some? {
      assert s[p..p + 2] == "**";
      assert s[p] == '*';
    }
  }

  /** Merging two strictly ordered lists that share no start position
      gives a strictly ordered list. */
  lemma {:induction false} MergeStrict(a: seq<Match>, b: seq<Match>)
    requires StrictlyByStart(a) && StrictlyByStart(b)
    requires forall x, y :: x in a && y in b ==> x.start != y.start
    ensures StrictlyByStart(Merge(a, b))
    decreases |a| + |b|
  {
    if |a| > 0 && |b| > 0 {
      assert a[0] in a && b[0] in b;
      if a[0].start <= b[0].start {
        var m := Merge(a[1..], b);
        assert StrictlyByStart(m) by {
          StrictTail(a);
          assert forall x :: x in a[1..] ==> x in a;
          MergeStrict(a[1..], b);
        }
        assert forall x :: x in m ==> a[0].start < x.start by {
          forall x | x in m
            ensures a[0].start < x.start
          {
            HeadBelow(a, b, x);
          }
        }
        ConsStrict(a[0], m);
      } else {
        var m := Merge(a, b[1..]);
        assert StrictlyByStart(m) by {
          StrictTail(b);
          assert forall y :: y in b[1..] ==> y in b;
          MergeStrict(a, b[1..]);
        }
        assert forall x :: x in m ==> b[0].start < x.start by {
          forall x | x in m
            ensures b[0].start < x.start
          {
            HeadBelow(b, a, x);
          }
        }
        ConsStrict(b[0], m);
      }
    }
  }

  /** The head of a strictly ordered list starts before every other
      element of it and, when it starts before the head of a second ordered
      list, before all of that list too. */
  lemma HeadBelow(a: seq<Match>, b: seq<Match>, x: Match)
    requires StrictlyByStart(a) && StrictlyByStart(b) && |a| > 0 && |b| > 0
    requires a[0].start < b[0].start
    requires x in a[1..] || x in b
    ensures a[0].start < x.start
  {
    if x in a[1..] {
      var i :| 0 <= i < |a[1..]| && a[1..][i] == x;
      assert a[i + 1] == x;
    } else {
      var i :| 0 <= i < |b| && b[i] == x;
      assert i == 0 || b[0].start < b[i].start;
    }
  }

  lemma StrictTail(l: seq<Match>)
    requires StrictlyByStart(l) && |l| > 0
    ensures StrictlyByStart(l[1..])
  {
    assert forall a, c :: 0 <= a < c < |l| - 1 ==> l[1..][a] == l[a + 1] && l[1..][c] == l[c + 1];
  }

  lemma ConsStrict(h: Match, l: seq<Match>)
    requires StrictlyByStart(l)
    requires forall x :: x in l ==> h.start < x.start
    ensures StrictlyByStart([h] + l)
  {
    var r := [h] + l;
    forall i, j | 0 <= i < j < |r|
      ensures r[i].start < r[j].start
    {
      assert r[j] == l[j - 1];
      if i > 0 {
        assert r[i] == l[i - 1];
      }
    }
  }

  /** The matches of one pattern are strictly ordered by start. */
  lemma FoundStrictly(s: string, k: Kind)
    ensures StrictlyByStart(FindAll(s, 0, k))
  {
    var ms := FindAll(s, 0, k);
    forall i, j | 0 <= i < j < |ms|
      ensures ms[i].start < ms[j].start
    {
      assert ms[i].end <= ms[j].start;
    }
  }

  lemma FoundIsMatch(s: string, k: Kind, x: Match)
    requires x in FindAll(s, 0, k)
    ensures MatchAt(s, x.start, x.kind) == Some(x)
  {
    FindAllMatches(s, 0, k, x);
  }

  /** The bold and raw-markup matches of a text, sorted by start position:
      the order in which `parseInlineFormatting` processes them. */
  function SortedMatches(text: string): (ms: seq<Match>)
    ensures multiset(ms) == multiset(Bolds(text) + Riches(text))
    ensures StrictlyByStart(ms)
    ensures forall i :: 0 <= i < |ms| ==> ms[i] in Bolds(text) || ms[i] in Riches(text)
    ensures InText(text, ms)
  {
    MergedStrictly(text);
    MergedInText(text);
    assert multiset(Bolds(text) + Riches(text)) == multiset(Bolds(text)) + multiset(Riches(text));
    Merge(Bolds(text), Riches(text))
  }

  lemma MergedInText(text: string)
    ensures InText(text, Merge(Bolds(text), Riches(text)))
  {
    var ms := Merge(Bolds(text), Riches(text));
    forall i | 0 <= i < |ms|
      ensures ms[i].start < ms[i].end <= |text|
    {
      var k := if ms[i] in Bolds(text) then BoldKind else RichKind;
      FoundIsMatch(text, k, ms[i]);
      assert MatchAt(text, ms[i].start, ms[i].kind) == Some(ms[i]);
    }
  }

  /** Every sorted match is a match of its pattern in the text. */
  lemma SortedAreMatches(text: string, i: nat)
    requires i < |SortedMatches(text)|
    ensures MatchAt(text, SortedMatches(text)[i].start, SortedMatches(text)[i].kind) == Some(SortedMatches(text)[i])
  {
    var m := SortedMatches(text)[i];
    if m in Bolds(text) {
      FoundIsMatch(text, BoldKind, m);
    } else {
      FoundIsMatch(text, RichKind, m);
    }
  }

  lemma MergedStrictly(text: string)
    ensures StrictlyByStart(Merge(Bolds(text), Riches(text)))
  {
    var b := Bolds(text);
    var r := Riches(text);
    FoundStrictly(text, BoldKind);
    FoundStrictly(text, RichKind);
    forall x, y | x in b && y in r
      ensures x.start != y.start
    {
      FoundIsMatch(text, BoldKind, x);
      FoundIsMatch(text, RichKind, y);
      KindsNeverShareStart(text, x.start);
    }
    MergeStrict(b, r);
  }


  /** Whatever sorted order of the collected matches the sort produces, it
      is the one `SortedMatches` describes. */
  lemma SortIsDetermined(text: string, sorted: seq<Match>)
    requires multiset(sorted) == multiset(Bolds(text) + Riches(text))
    requires SortedByStart(sorted)
    ensures sorted == SortedMatches(text)
  {
    var ms := SortedMatches(text);
    SortedIsStrict(sorted, ms);
    SortedPermutationUnique(sorted, ms);
  }

  /** A start-ordered rearrangement of a strictly ordered list is strictly
      ordered: equal starts would put one match in it twice. */
  lemma SortedIsStrict(sorted: seq<Match>, ms: seq<Match>)
    requires StrictlyByStart(ms) && multiset(sorted) == multiset(ms)
    requires SortedByStart(sorted)
    ensures StrictlyByStart(sorted)
  {
    forall i, j | 0 <= i < j < |sorted|
      ensures sorted[i].start < sorted[j].start
    {
      if sorted[i].start == sorted[j].start {
        assert sorted[i] in multiset(ms) && sorted[j] in multiset(ms);
        var a, c := IndexOf(ms, sorted[i]), IndexOf(ms, sorted[j]);
        assert a == c;
        TwiceCounted(sorted, i, j);
        StrictNoDuplicates(ms, a);
      }
    }
  }

  /** An element at two positions of a list is counted twice. */
  lemma TwiceCounted(l: seq<Match>, i: nat, j: nat)
    requires i < j < |l| && l[i] == l[j]
    ensures multiset(l)[l[i]] >= 2
  {
    assert l == l[..j] + l[j..];
    assert l[i] == l[..j][i];
    assert l[j] == l[j..][0];
    assert multiset(l) == multiset(l[..j]) + multiset(l[j..]);
  }

  /** A strictly ordered list holds each of its elements once. */
  lemma StrictNoDuplicates(ms: seq<Match>, a: nat)
    requires StrictlyByStart(ms)
    requires a < |ms|
    ensures multiset(ms)[ms[a]] == 1
  {
    var x := ms[a];
    assert ms == ms[..a] + [x] + ms[a + 1..];
    assert multiset(ms) == multiset(ms[..a]) + multiset{x} + multiset(ms[a + 1..]);
    assert x !in ms[..a];
    assert x !in ms[a + 1..];
  }

  // ---------------------------------------------------------------------
  // Segments
  // ---------------------------------------------------------------------

  function Formatted(m: Match): Segment {
    if m.kind == BoldKind then Bold(m.content) else Rich(m.content)
  }

  /** Every span is non-empty and lies within the text. */
  predicate InText(text: string, ms: seq<Match>) {
    forall i :: 0 <= i < |ms| ==> ms[i].start < ms[i].end <= |text|
  }

  /** The `forEach` over the sorted matches followed by the remaining
      text.  `cur` is `currentIndex`; it jumps to each match's end, even
      backwards when a match lies inside the previous one. */
  function Emit(text: string, ms: seq<Match>, cur: nat): (segs: seq<Segment>)
    requires InText(text, ms)
    ensures forall i :: 0 <= i < |segs| && segs[i].Plain? ==> segs[i].text != ""
    ensures |segs| >= |ms|
    ensures |segs| == 0 <==> |ms| == 0 && cur >= |text|
  {
    if |ms| == 0 then
      if cur < |text| then [Plain(text[cur..])] else []
    else
      var m := ms[0];
      var gap := if cur < m.start then [Plain(text[cur..m.start])] else [];
      gap + [Formatted(m)] + Emit(text, ms[1..], m.end)
  }

  /** `parseInlineFormatting`; when no segment is produced (the empty
      text) the text itself is returned as the only node. */
  function ParseInline(text: string): (segs: seq<Segment>)
    ensures |segs| >= 1
    ensures text == "" ==> segs == [Plain("")]
    ensures text != "" ==> forall i :: 0 <= i < |segs| && segs[i].Plain? ==> segs[i].text != ""
  {
    var ms := SortedMatches(text);
    var parts := Emit(text, ms, 0);
    if |parts| > 0 then parts else [Plain(text)]
  }

  /** The formatted segments of a list, in order, with the plain text
      between them dropped. */
  function Markup(segs: seq<Segment>): seq<Segment> {
    if |segs| == 0 then []
    else (if segs[0].Plain? then [] else [segs[0]]) + Markup(segs[1..])
  }

  /** The formatted segment of each match, in the order of the matches. */
  function Formattings(ms: seq<Match>): seq<Segment> {
    if |ms| == 0 then [] else [Formatted(ms[0])] + Formattings(ms[1..])
  }

  lemma {:induction false} MarkupAppend(a: seq<Segment>, b: seq<Segment>)
    ensures Markup(a + b) == Markup(a) + Markup(b)
  {
    if |a| > 0 {
      assert (a + b)[1..] == a[1..] + b;
      MarkupAppend(a[1..], b);
    } else {
      assert a + b == b;
    }
  }

  /** Every match yields exactly one formatted segment, in the order of
      the list, whatever the plain text around them. */
  lemma {:induction false} EmitFormats(text: string, ms: seq<Match>, cur: nat)
    requires InText(text, ms)
    ensures Markup(Emit(text, ms, cur)) == Formattings(ms)
    decreases |ms|
  {
    if |ms| == 0 {
      if cur < |text| {
        assert Markup([Plain(text[cur..])]) == [] + Markup([]);
      }
    } else {
      var m := ms[0];
      var gap := if cur < m.start then [Plain(text[cur..m.start])] else [];
      var rest := Emit(text, ms[1..], m.end);
      InTextFrom(text, ms, 1);
      EmitFormats(text, ms[1..], m.end);
      MarkupAppend(gap + [Formatted(m)], rest);
      MarkupAppend(gap, [Formatted(m)]);
      assert Markup(gap) == [] by {
        if cur < m.start {
          assert Markup(gap) == [] + Markup([]);
        }
      }
      assert Markup([Formatted(m)]) == [Formatted(m)] + Markup([]);
    }
  }

  /** After the last match `currentIndex` is that match's end, even when
      it lies before the end of an earlier match: the last segment is the
      text after it, or the last match itself when nothing follows. */
  lemma {:induction false} EmitTail(text: string, ms: seq<Match>, cur: nat)
    requires InText(text, ms) && |ms| > 0
    ensures var segs := Emit(text, ms, cur);
      var last := ms[|ms| - 1];
      |segs| > 0
      && segs[|segs| - 1] == (if last.end < |text| then Plain(text[last.end..]) else Formatted(last))
    decreases |ms|
  {
    var m := ms[0];
    var gap := if cur < m.start then [Plain(text[cur..m.start])] else [];
    var rest := Emit(text, ms[1..], m.end);
    assert Emit(text, ms, cur) == gap + [Formatted(m)] + rest;
    if |ms| > 1 {
      InTextFrom(text, ms, 1);
      EmitTail(text, ms[1..], m.end);
      assert ms[1..][|ms[1..]| - 1] == ms[|ms| - 1];
    }
  }

  /** The formatted segments of a line are those of its matches in start
      order: `**a**` becomes `Bold("a")`, `[[h]]` becomes `Rich("h")`. */
  lemma ParseInlineFormats(text: string)
    ensures Markup(ParseInline(text)) == Formattings(SortedMatches(text))
  {
    var ms := SortedMatches(text);
    EmitFormats(text, ms, 0);
    if |Emit(text, ms, 0)| == 0 {
      assert Markup([Plain(text)]) == [] + Markup([]);
    }
  }

  /** A line ends with the text after its last match (in start order), or
      with that match when it reaches the end of the line. */
  lemma ParseInlineTail(text: string)
    requires |SortedMatches(text)| > 0
    ensures var segs := ParseInline(text);
      var last := SortedMatches(text)[|SortedMatches(text)| - 1];
      segs[|segs| - 1] == (if last.end < |text| then Plain(text[last.end..]) else Formatted(last))
  {
    EmitTail(text, SortedMatches(text), 0);
  }

  /** The plain segment for the text between `p` and `q`, if any. */
  function Gap(text: string, p: nat, q: nat): seq<Segment>
    requires q <= |text|
  {
    if p < q then [Plain(text[p..q])] else []
  }

  /** `currentIndex` when the match `ms[i]` (or, for `i == |ms|`, the
      remaining text) is reached: the starting index, then the end of the
      match just before, wherever that lies. */
  function Prev(ms: seq<Match>, cur: nat, i: nat): nat
    requires i <= |ms|
  {
    if i == 0 then cur else ms[i - 1].end
  }

  /** The piece of the `k`-th match (from 1): its gap and the match. */
  function Piece(text: string, ms: seq<Match>, cur: nat, k: nat): seq<Segment>
    requires InText(text, ms) && 1 <= k <= |ms|
  {
    Gap(text, Prev(ms, cur, k - 1), ms[k - 1].start) + [Formatted(ms[k - 1])]
  }

  /** The segments for the first `n` matches, piece by piece: the gap
      from the previous match's end to the match's start, then the match. */
  function Pieces(text: string, ms: seq<Match>, cur: nat, n: nat): seq<Segment>
    requires InText(text, ms) && n <= |ms|
  {
    if n == 0 then []
    else Pieces(text, ms, cur, n - 1) + Piece(text, ms, cur, n)
  }

  /** The intended layout of a line: each match preceded by the plain text
      of its gap, then the text after the last match. */
  function Layout(text: string, ms: seq<Match>, cur: nat): seq<Segment>
    requires InText(text, ms)
  {
    Pieces(text, ms, cur, |ms|) + Gap(text, Prev(ms, cur, |ms|), |text|)
  }

  /** No two neighbouring segments are both plain text. */
  predicate NoAdjacentPlain(segs: seq<Segment>) {
    forall i :: 0 <= i < |segs| - 1 ==> !(segs[i].Plain? && segs[i + 1].Plain?)
  }

  /** Every suffix of a list of spans inside the text lies inside it. */
  lemma InTextFrom(text: string, ms: seq<Match>, k: nat)
    requires InText(text, ms) && k <= |ms|
    ensures InText(text, ms[k..])
  {
    assert forall i :: 0 <= i < |ms[k..]| ==> ms[k..][i] == ms[k + i];
  }

  /** `Emit` from the `k`-th match (from 1) on is that match's piece and
      then `Emit` from the next match with the index at its end. */
  lemma EmitUnfold(text: string, ms: seq<Match>, cur: nat, k: nat)
    requires InText(text, ms) && 1 <= k <= |ms|
    ensures InText(text, ms[k - 1..]) && InText(text, ms[k..])
    ensures Emit(text, ms[k - 1..], Prev(ms, cur, k - 1))
         == Piece(text, ms, cur, k) + Emit(text, ms[k..], Prev(ms, cur, k))
  {
    InTextFrom(text, ms, k - 1);
    InTextFrom(text, ms, k);
    assert ms[k - 1..][0] == ms[k - 1] && ms[k - 1..][1..] == ms[k..];
  }

  /** After the pieces of the first `k` matches, `Emit` continues from
      the `k`-th match with the index left by the match before it. */
  lemma {:induction false} EmitFrom(text: string, ms: seq<Match>, cur: nat, k: nat)
    requires InText(text, ms) && k <= |ms|
    ensures InText(text, ms[k..])
    ensures Pieces(text, ms, cur, k) + Emit(text, ms[k..], Prev(ms, cur, k)) == Emit(text, ms, cur)
    decreases k
  {
    InTextFrom(text, ms, k);
    if k == 0 {
      assert ms[0..] == ms;
    } else {
      EmitFrom(text, ms, cur, k - 1);
      EmitUnfold(text, ms, cur, k);
      Regroup(Pieces(text, ms, cur, k - 1), Piece(text, ms, cur, k), Emit(text, ms[k..], Prev(ms, cur, k)),
              Pieces(text, ms, cur, k), Emit(text, ms[k - 1..], Prev(ms, cur, k - 1)));
    }
  }

  /** Moving a middle part from the right operand to the left one. */
  lemma Regroup(a: seq<Segment>, b: seq<Segment>, c: seq<Segment>, ab: seq<Segment>, bc: seq<Segment>)
    requires ab == a + b && bc == b + c
    ensures ab + c == a + bc
  {
  }

  /** `Emit` lays a line out as `Layout` says: one plain segment for each
      non-empty gap, holding `text[Prev..start]` where `Prev` is the end
      of the match before (even when that moved the index backwards),
      then the match, and finally the text after the last match's end. */
  lemma EmitIsLayout(text: string, ms: seq<Match>, cur: nat)
    requires InText(text, ms)
    ensures Emit(text, ms, cur) == Layout(text, ms, cur)
  {
    EmitFrom(text, ms, cur, |ms|);
    var p := Prev(ms, cur, |ms|);
    assert ms[|ms|..] == [];
    if p < |text| {
      assert text[p..|text|] == text[p..];
    }
  }

  /** Consecutive gaps are separated by a match, so plain text never
      appears twice in a row. */
  lemma {:induction false} EmitNoAdjacentPlain(text: string, ms: seq<Match>, cur: nat)
    requires InText(text, ms)
    ensures NoAdjacentPlain(Emit(text, ms, cur))
    decreases |ms|
  {
    if |ms| > 0 {
      var m := ms[0];
      var gap := if cur < m.start then [Plain(text[cur..m.start])] else [];
      var rest := Emit(text, ms[1..], m.end);
      InTextFrom(text, ms, 1);
      EmitNoAdjacentPlain(text, ms[1..], m.end);
      var segs := gap + [Formatted(m)] + rest;
      assert Emit(text, ms, cur) == segs;
      forall i | 0 <= i < |segs| - 1
        ensures !(segs[i].Plain? && segs[i + 1].Plain?)
      {
        if i >= |gap| + 1 {
          assert segs[i] == rest[i - |gap| - 1] && segs[i + 1] == rest[i - |gap|];
        }
      }
    }
  }

  /** A non-empty line is laid out from its matches in start order, with
      no two plain segments side by side. */
  lemma ParseInlineLayout(text: string)
    requires text != ""
    ensures ParseInline(text) == Layout(text, SortedMatches(text), 0)
    ensures NoAdjacentPlain(ParseInline(text))
  {
    EmitIsLayout(text, SortedMatches(text), 0);
    EmitNoAdjacentPlain(text, SortedMatches(text), 0);
  }

  /** The markup a segment came from: plain text as is, formatted contents
      wrapped in their delimiters again. */
  function Show(seg: Segment): string {
    match seg
    case Plain(t) => t
    case Bold(c) => Wrap(BoldKind, c)
    case Rich(h) => Wrap(RichKind, h)
  }

  function Render(segs: seq<Segment>): string {
    if |segs| == 0 then "" else Show(segs[0]) + Render(segs[1..])
  }

  lemma {:induction false} RenderAppend(a: seq<Segment>, b: seq<Segment>)
    ensures Render(a + b) == Render(a) + Render(b)
  {
    if |a| > 0 {
      assert (a + b)[1..] == a[1..] + b;
      RenderAppend(a[1..], b);
    } else {
      assert a + b == b;
    }
  }

  /** Over matches that each reproduce their text and follow one another
      without overlap, the emitted segments render back to the text from
      `cur` on. */
  lemma {:induction false} EmitRenders(text: string, ms: seq<Match>, cur: nat)
    requires cur <= |text|
    requires InText(text, ms)
    requires forall i :: 0 <= i < |ms| ==> text[ms[i].start..ms[i].end] == Wrap(ms[i].kind, ms[i].content)
    requires forall i :: 0 <= i < |ms| - 1 ==> ms[i].end <= ms[i + 1].start
    requires |ms| > 0 ==> cur <= ms[0].start
    ensures Render(Emit(text, ms, cur)) == text[cur..]
    decreases |ms|
  {
    if |ms| == 0 {
      if cur < |text| {
        assert Render([Plain(text[cur..])]) == text[cur..] + Render([]);
      }
    } else {
      var tail := ms[1..];
      assert forall i :: 0 <= i < |tail| ==> tail[i] == ms[i + 1];
      EmitRenders(text, tail, ms[0].end);
      EmitStep(text, ms, cur);
    }
  }

  /** One step of `EmitRenders`: the gap, the formatted match and the
      rest render to the text from `cur` on. */
  lemma EmitStep(text: string, ms: seq<Match>, cur: nat)
    requires |ms| > 0 && cur <= ms[0].start
    requires InText(text, ms)
    requires text[ms[0].start..ms[0].end] == Wrap(ms[0].kind, ms[0].content)
    requires Render(Emit(text, ms[1..], ms[0].end)) == text[ms[0].end..]
    ensures Render(Emit(text, ms, cur)) == text[cur..]
  {
    var m := ms[0];
    var gap := if cur < m.start then [Plain(text[cur..m.start])] else [];
    var rest := Emit(text, ms[1..], m.end);
    assert Emit(text, ms, cur) == gap + [Formatted(m)] + rest;
    RenderThree(gap, Formatted(m), rest);
    assert Render(gap) == text[cur..m.start] by {
      if cur < m.start {
        assert Render(gap) == text[cur..m.start] + Render([]);
      }
    }
    SliceThree(text, cur, m.start, m.end);
  }

  lemma RenderThree(a: seq<Segment>, x: Segment, b: seq<Segment>)
    ensures Render(a + [x] + b) == Render(a) + Show(x) + Render(b)
  {
    RenderAppend(a + [x], b);
    RenderAppend(a, [x]);
    RenderSingle(x);
  }

  lemma RenderSingle(x: Segment)
    ensures Render([x]) == Show(x)
  {
    assert [x][1..] == [];
  }

  lemma SliceThree(s: string, a: nat, b: nat, c: nat)
    requires a <= b <= c <= |s|
    ensures s[a..] == s[a..b] + s[b..c] + s[c..]
  {
  }

  /** No bold span overlaps a raw-markup span of the same text. */
  predicate NoOverlap(text: string) {
    forall b, r :: b in Bolds(text) && r in Riches(text) ==> b.end <= r.start || r.end <= b.start
  }

  /** Without overlapping spans the segments reproduce the line exactly
      once the delimiters are put back around each formatted content. */
  lemma InlineRoundTrip(text: string)
    requires NoOverlap(text)
    ensures Render(ParseInline(text)) == text
  {
    EmitRoundTrip(text);
    if |Emit(text, SortedMatches(text), 0)| == 0 {
      assert text == "";
    }
  }

  /** The segments emitted for the sorted matches render back to the text. */
  lemma EmitRoundTrip(text: string)
    requires NoOverlap(text)
    ensures Render(Emit(text, SortedMatches(text), 0)) == text
  {
    SortedShapes(text);
    SortedChain(text);
    EmitRenders(text, SortedMatches(text), 0);
    assert text[0..] == text;
  }

  /** Each sorted match lies within the text and reproduces its span. */
  lemma SortedShapes(text: string)
    ensures forall i :: 0 <= i < |SortedMatches(text)| ==>
              SortedMatches(text)[i].start <= SortedMatches(text)[i].end <= |text|
    ensures forall i :: 0 <= i < |SortedMatches(text)| ==>
              text[SortedMatches(text)[i].start..SortedMatches(text)[i].end]
                == Wrap(SortedMatches(text)[i].kind, SortedMatches(text)[i].content)
  {
    var ms := SortedMatches(text);
    forall i | 0 <= i < |ms|
      ensures ms[i].start <= ms[i].end <= |text|
      ensures text[ms[i].start..ms[i].end] == Wrap(ms[i].kind, ms[i].content)
    {
      SortedAreMatches(text, i);
      MatchShape(text, ms[i].start, ms[i].kind);
    }
  }

  /** Without overlaps each sorted match ends before the next begins. */
  lemma SortedChain(text: string)
    requires NoOverlap(text)
    ensures forall i :: 0 <= i < |SortedMatches(text)| - 1 ==>
              SortedMatches(text)[i].end <= SortedMatches(text)[i + 1].start
  {
    var b := Bolds(text);
    var r := Riches(text);
    var ms := SortedMatches(text);
    forall i | 0 <= i < |ms| - 1
      ensures ms[i].end <= ms[i + 1].start
    {
      var x, y := ms[i], ms[i + 1];
      assert x.start < y.start;
      SortedAreMatches(text, i + 1);
      if x in b && y in b {
        ApartInFound(text, BoldKind, x, y);
      } else if x in r && y in r {
        ApartInFound(text, RichKind, x, y);
      }
    }
  }

  /** Two distinct-start matches of one pattern do not overlap, the
      earlier ending before the later begins. */
  lemma ApartInFound(text: string, k: Kind, x: Match, y: Match)
    requires x in FindAll(text, 0, k) && y in FindAll(text, 0, k)
    requires x.start < y.start
    ensures x.end <= y.start
  {
    FoundChain(text, k);
    ChainApart(FindAll(text, 0, k), x, y);
  }

  /** Non-empty spans, each ending before the next begins. */
  predicate Chain(ms: seq<Match>) {
    && (forall i :: 0 <= i < |ms| ==> ms[i].start < ms[i].end)
    && (forall i, j :: 0 <= i < j < |ms| ==> ms[i].end <= ms[j].start)
  }

  lemma FoundChain(s: string, k: Kind)
    ensures Chain(FindAll(s, 0, k))
  {
  }

  /** In a chain, a span that starts earlier also ends before the later
      one begins. */
  lemma ChainApart(l: seq<Match>, x: Match, y: Match)
    requires Chain(l) && x in l && y in l
    requires x.start < y.start
    ensures x.end <= y.start
  {
    var a :| 0 <= a < |l| && l[a] == x;
    var c :| 0 <= c < |l| && l[c] == y;
    assert a < c;
  }

  /** A text without bold or raw-markup spans is one plain segment (or,
      when empty, itself). */
  lemma NoMarkupIsPlain(text: string)
    requires Bolds(text) == [] && Riches(text) == []
    ensures ParseInline(text) == [Plain(text)]
  {
    var ms := SortedMatches(text);
    assert |multiset(ms)| == 0;
  }
}
