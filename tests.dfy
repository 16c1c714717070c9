/** The unit tests of the parser, stated about the model, and a few more
    inputs that pin down its edge cases. Each lemma takes the test's input
    as its parameter `s`; the general lemma it rests on follows it. */
module ParserTests {
  import opened Wrappers
  import opened Strings
  import opened Markdown
  import opened MarkdownParser

  /** `![text](link)` is an image. */
  lemma ImageTest(s: string)
    requires s == "![text](link)"
    ensures Parse(s) == Ok(Image("text", "link"))
  {
    var t, l := "text", "link";
    assert "![" + t + "](" + l + ")" == s;
    ParseImage(t, l);
  }

  /** `[text](link)` is a hyperlink. */
  lemma HyperlinkTest(s: string)
    requires s == "[text](link)"
    ensures Parse(s) == Ok(Link("text", "link"))
  {
    var t, l := "text", "link";
    assert "[" + t + "](" + l + ")" == s;
    ParseLink(t, l);
  }

  /** `# ## ### test` nests three headings. */
  lemma HeadingTest(s: string)
    requires s == "# ## ### test"
    ensures Parse(s) == Ok(Heading(Heading(Heading(Text("test"), 3), 2), 1))
  {
    NestedHeadings(s, "test");
  }

  /** The three heading markers in a row, before a plain word, nest three
      headings around the text of the word. */
  lemma NestedHeadings(s: string, w: string)
    requires s == "#" + " " + ("##" + " " + ("###" + " " + w))
    requires Plain(w)
    ensures Parse(s) == Ok(Heading(Heading(Heading(Text(w), 3), 2), 1))
  {
    var r2 := "###" + " " + w;
    var r1 := "##" + " " + r2;
    assert OneLine(r2);
    assert OneLine(r1);
    ParseLineToken("#", r1);
    ParseLineToken("##", r2);
    ParseLineToken("###", w);
    ParseText(w);
  }

  /** `**bold**` is bold text. */
  lemma BoldTest(s: string)
    requires s == "**bold**"
    ensures Parse(s) == Ok(Bold(Text("bold")))
  {
    BoldWord(s, "bold");
  }

  /** A plain word between double stars is the bold text of the word. */
  lemma BoldWord(s: string, u: string)
    requires s == "**" + u + "**" && Plain(u)
    ensures Parse(s) == Ok(Bold(Text(u)))
  {
    ParseBold(u);
    ParseText(u);
  }

  /** `*italic*` is italic text. */
  lemma ItalicTest(s: string)
    requires s == "*italic*"
    ensures Parse(s) == Ok(Italics(Text("italic")))
  {
    ItalicWord(s, "italic");
  }

  /** A starred plain word is the italic text of the word. */
  lemma ItalicWord(s: string, u: string)
    requires s == "*" + u + "*" && Plain(u)
    ensures Parse(s) == Ok(Italics(Text(u)))
  {
    ParseItalics(u);
    ParseText(u);
    assert Enclose(ItalicsOf, Ok(Text(u))) == Ok(Italics(Text(u)));
  }

  /** `> test` is a blockquote. */
  lemma BlockquoteTest(s: string)
    requires s == "> test"
    ensures Parse(s) == Ok(BlockQuote(Text("test")))
  {
    QuotedWord(s, "test");
  }

  /** `> ` before a plain word quotes the text of the word. */
  lemma QuotedWord(s: string, w: string)
    requires s == ">" + " " + w && Plain(w)
    ensures Parse(s) == Ok(BlockQuote(Text(w)))
  {
    ParseLineToken(">", w);
    ParseText(w);
  }

  /** `---` is a horizontal rule. */
  lemma HrTest(s: string)
    requires s == "---"
    ensures Parse(s) == Ok(HR)
  {
    ParseWord(s);
  }

  /** `test text` is the text of its first word, not a horizontal rule. */
  lemma FirstWordIsText(s: string)
    requires s == "test text"
    ensures Parse(s) == Ok(Text("test"))
  {
    var w, r := "test", "text";
    assert s == w + " " + r;
    ParsePlainFirstWord(w, r);
  }

  /** The empty text has one empty word, and `word[..1]` of it panics. */
  lemma EmptyTextPanics(s: string)
    requires s == ""
    ensures Parse(s) == Err(SliceOutOfRange)
  {
    ParseWord(s);
  }

  /** A heading marker with nothing after it panics on `line[2..]`. */
  lemma LoneMarkerPanics(s: string)
    requires s == "#"
    ensures Parse(s) == Err(SliceOutOfRange)
  {
    ParseWord(s);
  }

  /** A lone `*` panics on `word[..2]`. */
  lemma LoneStarPanics(s: string)
    requires s == "*"
    ensures Parse(s) == Err(SliceOutOfRange)
  {
    ParseWord(s);
  }

  /** A lone `**` panics on `word[2..word.len() - 2]`. */
  lemma LoneDoubleStarPanics(s: string)
    requires s == "**"
    ensures Parse(s) == Err(SliceOutOfRange)
  {
    ParseWord(s);
  }

  /** A line of words that are all passed over gives empty text. */
  lemma PassedOverLine(s: string)
    requires s == "- ```"
    ensures Parse(s) == Ok(Text(""))
  {
    PassedOverWords(s, "-", "```");
  }

  /** Two skipped words make a line that decides nothing. */
  lemma PassedOverWords(s: string, w: string, r: string)
    requires s == w + " " + r && SkipToken(w) && SkipToken(r)
    ensures Parse(s) == Ok(Text(""))
  {
    SkipTokenIsWord(w);
    SkipTokenIsWord(r);
    ParseFirstWord(w, r);
    forall i: nat ensures !At(r, " ", i) {
      AtChar(r, ' ', i);
    }
    SplitOnAbsent(r, " ");
    var words := SplitOn(s, " ");
    assert words == [w, r];
    assert OneLine(s) by {
      assert forall i | 0 <= i < |s| :: s[i] == if i < |w| then w[i] else if i == |w| then ' ' else r[i - |w| - 1];
    }
    ParseOneLine(s);
    DecidePassesOver(s, w);
    DecidePassesOver(s, r);
    ScanWordsAllPassed(s, words);
  }

  /** The skipped words are single words. */
  lemma SkipTokenIsWord(w: string)
    requires SkipToken(w)
    ensures OneWord(w)
  {
  }

  /** The heading offset is counted from the start of the line, not from
      the marker: after a passed-over `-`, the inner text of `#` is `# x`,
      so the line holds two headings. */
  lemma HeadingOffsetFromLineStart(s: string)
    requires s == "- # x"
    ensures Parse(s) == Ok(Heading(Heading(Text("x"), 1), 1))
  {
    HeadingAfterDash(s, "x");
  }

  /** `- # ` before a plain word nests two headings around its text. */
  lemma HeadingAfterDash(s: string, x: string)
    requires s == "-" + " " + ("#" + " " + x) && Plain(x)
    ensures Parse(s) == Ok(Heading(Heading(Text(x), 1), 1))
  {
    var r := "#" + " " + x;
    assert OneLine(r);
    MarkerAfterDash(s, r);
    ParseLineToken("#", x);
    ParseText(x);
  }

  /** A `#` after a passed-over `-` slices the line from its third
      character, so it encloses the parse of the `#` and what follows. */
  lemma MarkerAfterDash(s: string, r: string)
    requires s == "-" + " " + r && OneLine(r) && |r| >= 2 && r[0] == '#' && r[1] == ' '
    ensures Parse(s) == Enclose(HeadingOf(1), Parse(r))
  {
    SkipTokenIsWord("-");
    ParseFirstWord("-", r);
    var x := r[2..];
    assert r == [r[0]] + [r[1]] + x;
    assert r == "#" + " " + x;
    MarkerIsWord("#");
    ParseFirstWord("#", x);
    var words := SplitOn(s, " ");
    assert words[0] == "-" && words[1] == "#";
    assert OneLine(s) by {
      assert forall i | 0 <= i < |s| :: s[i] == if i < 2 then "- "[i] else r[i - 2];
    }
    ParseOneLine(s);
    DecidePassesOver(s, "-");
    DecideLineToken(s, "#");
    ScanWordsFirstDecisive(s, words, 1);
    assert s[2..] == r;
  }
}
