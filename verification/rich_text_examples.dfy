/** Concrete lines run through the inline parser, documenting how it
    treats spans that overlap. */
module RichTextExamples {
  import opened Wrappers
  import opened RichText

  /** Overlapping spans are emitted as found: a raw-markup span inside a
      bold span appears both inside the bold content and on its own, and
      `currentIndex` moving back to the raw span's end repeats the tail. */
  lemma NestedSpansParse()
    ensures ParseInline("**x[[y]]z**") == [Bold("x[[y]]z"), Rich("y"), Plain("z**")]
  {
    var s := "**x[[y]]z**";
    var b := Match(0, 11, BoldKind, "x[[y]]z");
    var r := Match(3, 8, RichKind, "y");
    assert SortedMatches(s) == [b, r] by {
      ExampleBolds();
      ExampleRiches();
      assert Merge([b], [r]) == [b] + Merge([], [r]);
    }
    ExampleEmit(s);
  }

  /** The bold span is emitted first; the raw span then moves the current
      index back to 8, so `z**` is emitted again as plain text. */
  lemma ExampleEmit(s: string)
    requires s == "**x[[y]]z**"
    ensures Emit(s, [Match(0, 11, BoldKind, "x[[y]]z"), Match(3, 8, RichKind, "y")], 0)
         == [Bold("x[[y]]z"), Rich("y"), Plain("z**")]
  {
    var b := Match(0, 11, BoldKind, "x[[y]]z");
    var r := Match(3, 8, RichKind, "y");
    assert s[8..] == "z**";
    assert Emit(s, [], 8) == [Plain("z**")];
    assert [b, r][1..] == [r];
    assert Emit(s, [r], 11) == [Rich("y"), Plain("z**")];
  }

  /** The bold pattern matches once, across the whole line. */
  lemma ExampleBolds()
    ensures Bolds("**x[[y]]z**") == [Match(0, 11, BoldKind, "x[[y]]z")]
  {
    var s := "**x[[y]]z**";
    assert ScanClose(s, 2, '*') == Some(9);
    assert s[2..9] == "x[[y]]z";
    assert MatchAt(s, 0, BoldKind) == Some(Match(0, 11, BoldKind, "x[[y]]z"));
    assert FindAll(s, 11, BoldKind) == [];
  }

  /** The raw-markup pattern matches once, inside the bold span. */
  lemma ExampleRiches()
    ensures Riches("**x[[y]]z**") == [Match(3, 8, RichKind, "y")]
  {
    var s := "**x[[y]]z**";
    assert ScanClose(s, 5, ']') == Some(6);
    assert s[5..6] == "y";
    assert MatchAt(s, 3, RichKind) == Some(Match(3, 8, RichKind, "y"));
    assert FindAll(s, 8, RichKind) == [];
    assert FindAll(s, 2, RichKind) == [Match(3, 8, RichKind, "y")];
  }

  /** Hence the round trip fails for that line: the rendering is longer. */
  lemma NestedSpansRepeat()
    ensures Render(ParseInline("**x[[y]]z**")) != "**x[[y]]z**"
  {
    NestedSpansParse();
    var segs := [Bold("x[[y]]z"), Rich("y"), Plain("z**")];
    assert segs[1..][1..] == [Plain("z**")];
    assert |Render(segs[1..][1..])| == 3;
    assert |Render(segs[1..])| == 8;
    assert |Render(segs)| == 19;
  }
}
