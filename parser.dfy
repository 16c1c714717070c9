/** `Parser for String`: the toy Markdown parser. It cleans the text, splits
    it into lines at '\n' and each line into words at ' ', and returns as
    soon as one word decides the node. A slice that Rust would reject with
    a panic (`line[2..]` of a line that is too short, `word[..1]` of an
    empty word, a reversed range) is the outcome `Err(SliceOutOfRange)`.
    Text has one byte per character, so byte offsets are indices. */
module MarkdownParser {
  import opened Wrappers
  import opened Strings
  import opened Markdown

  /** The panic of a byte slice whose range does not fit the text. */
  datatype Panic = SliceOutOfRange

  type Parsed = Result<Node, Panic>

  /** The node a recursive parse is boxed into. */
  datatype Shell = HeadingOf(size: Byte) | QuoteOf | BoldOf | ItalicsOf

  /** What one word makes the parser do: go on with the next word, return a
      result, or return the parse of `sub` boxed into `shell`. */
  datatype Action = Pass | Done(result: Parsed) | Descend(shell: Shell, sub: string)

  /** `Box::new(Node::Heading { inner: <parse>, size })` and its siblings: a
      panic inside the recursive parse stays a panic. */
  function Enclose(shell: Shell, r: Parsed): Parsed {
    match r
    case Err(e) => Err(e)
    case Ok(inner) =>
      Ok(match shell
         case HeadingOf(size) => Heading(inner, size)
         case QuoteOf => BlockQuote(inner)
         case BoldOf => Bold(inner)
         case ItalicsOf => Italics(inner))
  }

  /** The clean-up before splitting: every "\r\n\r" is removed. */
  function Clean(s: string): (r: string)
    ensures |r| <= |s|
  {
    ReplaceAll(s, "\r\n\r", "")
  }

  /** The words the parser skips outright. */
  predicate SkipToken(w: string) {
    w == "-" || w == "```"
  }

  /** The four brackets of `![text](link)` and `[text](link)`, each at its
      first occurrence in the word, when all four occur. */
  function Brackets(word: string): Option<(nat, nat, nat, nat)> {
    match (Find(word, "[", 0), Find(word, "]", 0), Find(word, "(", 0), Find(word, ")", 0))
    case (Some(a), Some(b), Some(c), Some(d)) => Some((a, b, c, d))
    case _ => None
  }

  /** A word starting with '!' (an image) or '[' (a link): the text between
      the first '[' and the first ']' and the link between the first '('
      and the first ')', or `Pass` when a bracket is missing. */
  function Bracketed(word: string): Action
    requires word != []
  {
    match Brackets(word)
    case None => Pass
    case Some((a, b, c, d)) =>
      if a + 1 > b || c + 1 > d then Done(Err(SliceOutOfRange))
      else if word[0] == '!' then Done(Ok(Image(word[a + 1..b], word[c + 1..d])))
      else Done(Ok(Link(word[a + 1..b], word[c + 1..d])))
  }

  /** The `match word` of the loop, for one word of `line`. Every text it
      descends into is shorter than the line. */
  function Decide(line: string, word: string): (a: Action)
    requires |word| <= |line|
    ensures a.Descend? ==> |a.sub| < |line|
  {
    if word == "#" then
      if |line| < 2 then Done(Err(SliceOutOfRange)) else Descend(HeadingOf(1), line[2..])
    else if word == "##" then
      if |line| < 3 then Done(Err(SliceOutOfRange)) else Descend(HeadingOf(2), line[3..])
    else if word == "###" then
      if |line| < 4 then Done(Err(SliceOutOfRange)) else Descend(HeadingOf(3), line[4..])
    else if word == ">" then
      if |line| < 2 then Done(Err(SliceOutOfRange)) else Descend(QuoteOf, line[2..])
    else if SkipToken(word) then Pass
    else if word == "---" then Done(Ok(HR))
    else if word == [] then Done(Err(SliceOutOfRange))
    else if word[0] == '*' then
      if |word| < 2 then Done(Err(SliceOutOfRange))
      else if word[..2] == "**" then
        if |word| < 4 then Done(Err(SliceOutOfRange)) else Descend(BoldOf, word[2..|word| - 2])
      else Descend(ItalicsOf, word[1..|word| - 1])
    else if word[0] == '!' || word[0] == '[' then Bracketed(word)
    else Done(Ok(Text(word)))
  }

  /** The first of two actions that is not `Pass`. */
  function FirstAction(a: Action, b: Action): Action {
    if a.Pass? then b else a
  }

  /** The action of the first deciding word of a line, or `Pass`. */
  function ScanWords(line: string, words: seq<string>): (a: Action)
    requires PiecesWithin(words, |line|)
    ensures a.Descend? ==> |a.sub| < |line|
  {
    if words == [] then Pass
    else FirstAction(Decide(line, words[0]), ScanWords(line, words[1..]))
  }

  /** The action of the first deciding word of the first line that has one,
      or `Pass`; `n` bounds the length of every line. */
  function ScanLines(lines: seq<string>, n: nat): (a: Action)
    requires PiecesWithin(lines, n)
    ensures a.Descend? ==> |a.sub| < n
  {
    if lines == [] then Pass
    else FirstAction(ScanWords(lines[0], SplitOn(lines[0], " ")), ScanLines(lines[1..], n))
  }

  /** The result of `parse`. */
  function Parse(s: string): Parsed
    decreases |s|, 1
  {
    Outcome(ScanLines(SplitOn(Clean(s), "\n"), |s|), |s|)
  }

  /** What `parse` returns once the scan has chosen its action: `Text("")`
      when no word decided. */
  function Outcome(a: Action, n: nat): Parsed
    requires a.Descend? ==> |a.sub| < n
    decreases n, 0
  {
    match a
    case Pass => Ok(Text(""))
    case Done(r) => r
    case Descend(shell, sub) => Enclose(shell, Parse(sub))
  }

  /** One step of the scan of the lines, at line `li`. */
  lemma ScanLinesAt(lines: seq<string>, li: nat, n: nat)
    requires PiecesWithin(lines, n)
    requires li < |lines|
    ensures ScanLines(lines[li..], n) ==
      FirstAction(ScanWords(lines[li], SplitOn(lines[li], " ")), ScanLines(lines[li + 1..], n))
  {
    assert lines[li..][0] == lines[li];
    assert lines[li..][1..] == lines[li + 1..];
  }

  /** One step of the scan of the words, at word `wi`. */
  lemma ScanWordsAt(line: string, words: seq<string>, wi: nat)
    requires PiecesWithin(words, |line|)
    requires wi < |words|
    ensures ScanWords(line, words[wi..]) == FirstAction(Decide(line, words[wi]), ScanWords(line, words[wi + 1..]))
  {
    assert words[wi..][0] == words[wi];
    assert words[wi..][1..] == words[wi + 1..];
  }

  /** `parse`: nested loops over the lines and their words, returning at
      the first word that decides the node. */
  method ParseMarkdown(s: string) returns (r: Parsed)
    ensures r == Parse(s)
    decreases |s|, 1
  {
    var cleaned := ReplaceAll(s, "\r\n\r", "");
    var markdown := SplitOn(cleaned, "\n");
    ghost var n := |s|;
    for li := 0 to |markdown|
      invariant Parse(s) == Outcome(ScanLines(markdown[li..], n), n)
    {
      var line := markdown[li];
      var stream := SplitOn(line, " ");
      ScanLinesAt(markdown, li, n);
      for wi := 0 to |stream|
        invariant Parse(s) == Outcome(FirstAction(ScanWords(line, stream[wi..]), ScanLines(markdown[li + 1..], n)), n)
      {
        ScanWordsAt(line, stream, wi);
        var decided := DecideWord(line, stream[wi], n);
        if decided.Some? {
          return decided.value;
        }
      }
      assert stream[|stream|..] == [];
    }
    assert markdown[|markdown|..] == [];
    return Ok(Text(""));
  }

  /** The arms of `match word`: the result the word returns, or `None` for
      the arms after which the loop goes on. */
  method DecideWord(line: string, word: string, ghost n: nat) returns (o: Option<Parsed>)
    requires |word| <= |line| <= n
    ensures o == if Decide(line, word).Pass? then None else Some(Outcome(Decide(line, word), n))
    decreases n, 0
  {
    if word == "#" {
      if |line| < 2 { return Some(Err(SliceOutOfRange)); }
      var inner := ParseMarkdown(line[2..]);
      return Some(Enclose(HeadingOf(1), inner));
    } else if word == "##" {
      if |line| < 3 { return Some(Err(SliceOutOfRange)); }
      var inner := ParseMarkdown(line[3..]);
      return Some(Enclose(HeadingOf(2), inner));
    } else if word == "###" {
      if |line| < 4 { return Some(Err(SliceOutOfRange)); }
      var inner := ParseMarkdown(line[4..]);
      return Some(Enclose(HeadingOf(3), inner));
    } else if word == ">" {
      if |line| < 2 { return Some(Err(SliceOutOfRange)); }
      var inner := ParseMarkdown(line[2..]);
      return Some(Enclose(QuoteOf, inner));
    } else if word == "-" || word == "```" {
      return None;
    } else if word == "---" {
      return Some(Ok(HR));
    } else if |word| < 1 {
      return Some(Err(SliceOutOfRange));
    } else if word[0] == '*' {
      if |word| < 2 { return Some(Err(SliceOutOfRange)); }
      if word[..2] == "**" {
        if |word| < 4 { return Some(Err(SliceOutOfRange)); }
        var inner := ParseMarkdown(word[2..|word| - 2]);
        return Some(Enclose(BoldOf, inner));
      } else {
        var inner := ParseMarkdown(word[1..|word| - 1]);
        return Some(Enclose(ItalicsOf, inner));
      }
    } else if word[0] == '!' || word[0] == '[' {
      DecideBracketed(line, word);
      o := LinkOrImage(word);
    } else {
      return Some(Ok(Text(word)));
    }
  }

  /** The arm for a word starting with '!' or '[': the image or link its
      four brackets delimit, or `None` when one of them is missing. */
  method LinkOrImage(word: string) returns (o: Option<Parsed>)
    requires word != []
    ensures o == if Bracketed(word).Pass? then None else Some(Bracketed(word).result)
  {
    var a, b := Find(word, "[", 0), Find(word, "]", 0);
    var c, d := Find(word, "(", 0), Find(word, ")", 0);
    if a.Some? && b.Some? && c.Some? && d.Some? {
      if a.value + 1 > b.value || c.value + 1 > d.value { return Some(Err(SliceOutOfRange)); }
      var text := word[a.value + 1..b.value];
      var link := word[c.value + 1..d.value];
      if word[0] == '!' {
        return Some(Ok(Image(text, link)));
      } else {
        return Some(Ok(Link(text, link)));
      }
    }
    return None;
  }

  // ---------------------------------------------------------------------
  // Properties of the scan

  /** Text on a single line. */
  predicate OneLine(s: string) {
    forall i | 0 <= i < |s| :: s[i] != '\n'
  }

  /** Text that is a single word of a single line. */
  predicate OneWord(s: string) {
    OneLine(s) && forall i | 0 <= i < |s| :: s[i] != ' '
  }

  /** Text on one line is left alone by the clean-up and is its only line. */
  lemma CleanOneLine(s: string)
    requires OneLine(s)
    ensures Clean(s) == s
    ensures SplitOn(s, "\n") == [s]
  {
    forall i: nat ensures !At(s, "\r\n\r", i) {
      if i + 3 <= |s| {
        assert s[i..i + 3][1] == s[i + 1];
      }
    }
    ReplaceAllUnchanged(s, "\r\n\r", "");
    forall i: nat ensures !At(s, "\n", i) {
      AtChar(s, '\n', i);
    }
    SplitOnAbsent(s, "\n");
  }

  /** The result for one line: what its first deciding word gives, or `Text("")`. */
  lemma ParseOneLine(s: string)
    requires OneLine(s)
    ensures Parse(s) == Outcome(ScanWords(s, SplitOn(s, " ")), |s|)
  {
    CleanOneLine(s);
    ScanLinesAt([s], 0, |s|);
    assert [s][1..] == [];
  }

  /** The scan of a line takes the action of the first word that decides. */
  lemma {:induction false} ScanWordsFirstDecisive(line: string, words: seq<string>, k: nat)
    requires PiecesWithin(words, |line|)
    requires k < |words|
    requires forall j | 0 <= j < k :: Decide(line, words[j]).Pass?
    requires !Decide(line, words[k]).Pass?
    ensures ScanWords(line, words) == Decide(line, words[k])
    decreases k
  {
    if k > 0 {
      assert Decide(line, words[0]).Pass?;
      assert forall j | 0 <= j < |words| - 1 :: words[1..][j] == words[j + 1];
      ScanWordsFirstDecisive(line, words[1..], k - 1);
    }
  }

  /** A line whose every word is passed over decides nothing. */
  lemma {:induction false} ScanWordsAllPassed(line: string, words: seq<string>)
    requires PiecesWithin(words, |line|)
    requires forall j | 0 <= j < |words| :: Decide(line, words[j]).Pass?
    ensures ScanWords(line, words) == Pass
    decreases |words|
  {
    if words != [] {
      assert Decide(line, words[0]).Pass?;
      assert forall j | 0 <= j < |words| - 1 :: words[1..][j] == words[j + 1];
      ScanWordsAllPassed(line, words[1..]);
    }
  }

  /** When no line has a deciding word, the result is `Text("")`. */
  lemma {:induction false} ScanLinesExhausted(lines: seq<string>, n: nat)
    requires PiecesWithin(lines, n)
    requires forall k | 0 <= k < |lines| :: ScanWords(lines[k], SplitOn(lines[k], " ")) == Pass
    ensures ScanLines(lines, n) == Pass
    ensures Outcome(ScanLines(lines, n), n) == Ok(Text(""))
    decreases |lines|
  {
    if lines != [] {
      assert ScanWords(lines[0], SplitOn(lines[0], " ")) == Pass;
      assert forall k | 0 <= k < |lines| - 1 :: lines[1..][k] == lines[k + 1];
      ScanLinesExhausted(lines[1..], n);
    }
  }

  /** The scan of the text takes the action of the first line that has a
      deciding word: the lines before it, whose words all pass, change nothing. */
  lemma {:induction false} ScanLinesFirstDecisive(lines: seq<string>, n: nat, k: nat)
    requires PiecesWithin(lines, n)
    requires k < |lines|
    requires forall j | 0 <= j < k :: ScanWords(lines[j], SplitOn(lines[j], " ")).Pass?
    requires !ScanWords(lines[k], SplitOn(lines[k], " ")).Pass?
    ensures ScanLines(lines, n) == ScanWords(lines[k], SplitOn(lines[k], " "))
    decreases k
  {
    if k > 0 {
      assert ScanWords(lines[0], SplitOn(lines[0], " ")).Pass?;
      assert forall j | 0 <= j < |lines| - 1 :: lines[1..][j] == lines[j + 1];
      ScanLinesFirstDecisive(lines[1..], n, k - 1);
    }
  }

  /** The words that do not decide: "-", "```", and an image or link word
      lacking one of its four brackets. */
  lemma DecidePassesOver(line: string, word: string)
    requires |word| <= |line|
    ensures Decide(line, word).Pass? <==>
      SkipToken(word) || (word != [] && (word[0] == '!' || word[0] == '[') && Brackets(word).None?)
  {
  }

  /** A line starting with a word: when that word decides, it gives the result. */
  lemma ParseFirstWord(w: string, rest: string)
    requires OneWord(w) && OneLine(rest)
    ensures var s := w + " " + rest;
      SplitOn(s, " ") == [w] + SplitOn(rest, " ") &&
      (!Decide(s, w).Pass? ==> Parse(s) == Outcome(Decide(s, w), |s|))
  {
    var s := w + " " + rest;
    assert forall i | 0 <= i < |s| :: s[i] == if i < |w| then w[i] else if i == |w| then ' ' else rest[i - |w| - 1];
    forall i: nat | i < |w| ensures !At(s, " ", i) {
      AtChar(s, ' ', i);
    }
    SplitOnFirst(w, rest, " ");
    ParseOneLine(s);
    ScanWordsAt(s, SplitOn(s, " "), 0);
    assert SplitOn(s, " ")[0..] == SplitOn(s, " ");
  }

  /** `#`, `##`, `###` and `>` at the start of a line: a heading of size 1, 2
      or 3, or a blockquote, around the parse of the line after the marker
      and its space. */
  lemma ParseLineToken(tok: string, rest: string)
    requires tok == "#" || tok == "##" || tok == "###" || tok == ">"
    requires OneLine(rest)
    ensures Parse(tok + " " + rest) ==
      Enclose(if tok == ">" then QuoteOf else HeadingOf(|tok|), Parse(rest))
  {
    var s := tok + " " + rest;
    MarkerIsWord(tok);
    ParseFirstWord(tok, rest);
    DecideLineToken(s, tok);
    assert s[|tok| + 1..] == rest;
  }

  /** The markers are single words. */
  lemma MarkerIsWord(tok: string)
    requires tok == "#" || tok == "##" || tok == "###" || tok == ">"
    ensures OneWord(tok)
  {
  }

  /** A marker word descends into the line after the marker and a space. */
  lemma DecideLineToken(line: string, tok: string)
    requires tok == "#" || tok == "##" || tok == "###" || tok == ">"
    requires |tok| + 1 <= |line|
    ensures Decide(line, tok) ==
      Descend(if tok == ">" then QuoteOf else HeadingOf(|tok|), line[|tok| + 1..])
  {
  }

  /** A single word gives what its own decision gives, or `Text("")`. */
  lemma ParseWord(w: string)
    requires OneWord(w)
    ensures Parse(w) == Outcome(Decide(w, w), |w|)
  {
    forall i: nat ensures !At(w, " ", i) {
      AtChar(w, ' ', i);
    }
    SplitOnAbsent(w, " ");
    ParseOneLine(w);
    assert [w][1..] == [];
  }

  /** A word none of the arms of `match word` recognises: one that is
      neither a marker, a skipped word, a rule, nor starts with '*', '!' or '['. */
  predicate Plain(w: string) {
    OneWord(w) && w != [] && w[0] != '*' && w[0] != '!' && w[0] != '[' &&
    w !in {"#", "##", "###", ">", "-", "```", "---"}
  }

  /** A plain word decides the node: the text of the word. */
  lemma DecidePlain(line: string, w: string)
    requires |w| <= |line| && Plain(w)
    ensures Decide(line, w) == Done(Ok(Text(w)))
  {
  }

  /** A plain word is text, verbatim. */
  lemma ParseText(w: string)
    requires Plain(w)
    ensures Parse(w) == Ok(Text(w))
  {
    ParseWord(w);
    DecidePlain(w, w);
  }

  /** A line starting with a plain word is the text of that word, whatever
      the rest of the line holds. */
  lemma ParsePlainFirstWord(w: string, rest: string)
    requires Plain(w) && OneLine(rest)
    ensures Parse(w + " " + rest) == Ok(Text(w))
  {
    ParseFirstWord(w, rest);
    DecidePlain(w + " " + rest, w);
  }

  /** `**u**` is bold around the parse of `u`. */
  lemma ParseBold(u: string)
    requires OneWord(u)
    ensures Parse("**" + u + "**") == Enclose(BoldOf, Parse(u))
  {
    var w := "**" + u + "**";
    assert forall i | 0 <= i < |w| :: w[i] == if 2 <= i < |w| - 2 then u[i - 2] else '*';
    ParseWord(w);
    assert w[..2] == "**" && w[2..|w| - 2] == u;
  }

  /** `*u*`, where `u` does not start with '*', is italics around the parse of `u`. */
  lemma ParseItalics(u: string)
    requires OneWord(u) && u != [] && u[0] != '*'
    ensures Parse("*" + u + "*") == Enclose(ItalicsOf, Parse(u))
  {
    var w := "*" + u + "*";
    assert forall i | 0 <= i < |w| :: w[i] == if 1 <= i < |w| - 1 then u[i - 1] else '*';
    ParseWord(w);
    assert w[..2] != "**" by { assert w[..2][1] == u[0]; }
    assert w[1..|w| - 1] == u;
  }

  /** Text without any of the four bracket characters. */
  predicate NoBrackets(s: string) {
    Lacks(s, '[') && Lacks(s, ']') && Lacks(s, '(') && Lacks(s, ')')
  }

  /** Single words glued together are a single word. */
  lemma OneWordAppend(x: string, y: string)
    requires OneWord(x) && OneWord(y)
    ensures OneWord(x + y)
  {
    assert forall i | |x| <= i < |x + y| :: (x + y)[i] == y[i - |x|];
  }

  /** The shape of an image or link word: a prefix `p` without brackets,
      then `[t](l)` with `t` and `l` without brackets. */
  predicate LinkShape(w: string, p: string, t: string, l: string) {
    w == p + "[" + t + "](" + l + ")" && NoBrackets(p) && NoBrackets(t) && NoBrackets(l)
  }

  /** The first '[' of `p[t](l)` follows `p`. */
  lemma OpenBracketOf(w: string, p: string, t: string, l: string)
    requires LinkShape(w, p, t, l)
    ensures Find(w, "[", 0) == Some(|p|)
  {
    assert w == p + ['['] + (t + "](" + l + ")");
    FindFirstChar(p, '[', t + "](" + l + ")");
  }

  /** The first ']' of `p[t](l)` follows `t`. */
  lemma CloseBracketOf(w: string, p: string, t: string, l: string)
    requires LinkShape(w, p, t, l)
    ensures Find(w, "]", 0) == Some(|p| + |t| + 1)
  {
    var x := p + "[" + t;
    LacksAppend(p, "[", ']');
    LacksAppend(p + "[", t, ']');
    assert w == x + [']'] + ("(" + l + ")");
    FindFirstChar(x, ']', "(" + l + ")");
  }

  /** The first '(' of `p[t](l)` follows the ']'. */
  lemma OpenParenOf(w: string, p: string, t: string, l: string)
    requires LinkShape(w, p, t, l)
    ensures Find(w, "(", 0) == Some(|p| + |t| + 2)
  {
    var x := p + "[" + t + "]";
    LacksAppend(p, "[", '(');
    LacksAppend(p + "[", t, '(');
    LacksAppend(p + "[" + t, "]", '(');
    assert w == x + ['('] + (l + ")");
    FindFirstChar(x, '(', l + ")");
  }

  /** The first ')' of `p[t](l)` is its last character. */
  lemma CloseParenOf(w: string, p: string, t: string, l: string)
    requires LinkShape(w, p, t, l)
    ensures Find(w, ")", 0) == Some(|p| + |t| + |l| + 3)
  {
    var x := p + "[" + t + "](" + l;
    LacksAppend(p, "[", ')');
    LacksAppend(p + "[", t, ')');
    LacksAppend(p + "[" + t, "](", ')');
    LacksAppend(p + "[" + t + "](", l, ')');
    assert w == x + [')'];
    FindLastChar(x, ')');
  }

  /** The brackets of `w = p[t](l)`, and the text and link they enclose. */
  lemma BracketsOf(w: string, p: string, t: string, l: string)
    requires LinkShape(w, p, t, l)
    ensures Brackets(w) == Some((|p|, |p| + |t| + 1, |p| + |t| + 2, |p| + |t| + |l| + 3))
    ensures w[|p| + 1..|p| + |t| + 1] == t && w[|p| + |t| + 3..|p| + |t| + |l| + 3] == l
  {
    OpenBracketOf(w, p, t, l);
    CloseBracketOf(w, p, t, l);
    OpenParenOf(w, p, t, l);
    CloseParenOf(w, p, t, l);
    assert w[|p| + 1..|p| + |t| + 1] == t;
    assert w[|p| + |t| + 3..|p| + |t| + |l| + 3] == l;
  }

  /** A word starting with '!' or '[' is decided by its brackets alone. */
  lemma DecideBracketed(line: string, word: string)
    requires |word| <= |line|
    requires word != [] && (word[0] == '!' || word[0] == '[')
    ensures Decide(line, word) == Bracketed(word)
  {
    assert word !in {"#", "##", "###", ">", "-", "```", "---"} by {
      assert word[0] != '#' && word[0] != '>' && word[0] != '-' && word[0] != '`';
    }
  }

  /** A link or image word made of single words is a single word. */
  lemma LinkIsWord(p: string, t: string, l: string)
    requires OneWord(p) && OneWord(t) && OneWord(l)
    ensures OneWord(p + t + "](" + l + ")")
  {
    OneWordAppend(p, t);
    OneWordAppend(p + t, "](");
    OneWordAppend(p + t + "](", l);
    OneWordAppend(p + t + "](" + l, ")");
  }

  /** A word of the shape `p[t](l)` is an image when it starts with '!' and
      a link otherwise, with text `t` and link `l`. */
  lemma BracketedShape(w: string, p: string, t: string, l: string)
    requires LinkShape(w, p, t, l)
    ensures w != []
    ensures Bracketed(w) == Done(Ok(if w[0] == '!' then Image(t, l) else Link(t, l)))
  {
    BracketsOf(w, p, t, l);
  }

  /** `[t](l)` is a link with text `t` and link `l`. */
  lemma ParseLink(t: string, l: string)
    requires OneWord(t) && OneWord(l) && NoBrackets(t) && NoBrackets(l)
    ensures Parse("[" + t + "](" + l + ")") == Ok(Link(t, l))
  {
    var link := "[" + t + "](" + l + ")";
    assert link == [] + "[" + t + "](" + l + ")";
    BracketedShape(link, [], t, l);
    assert link[0] == '[';
    LinkIsWord("[", t, l);
    ParseWord(link);
    DecideBracketed(link, link);
  }

  /** `![t](l)` is an image with text `t` and link `l`. */
  lemma ParseImage(t: string, l: string)
    requires OneWord(t) && OneWord(l) && NoBrackets(t) && NoBrackets(l)
    ensures Parse("![" + t + "](" + l + ")") == Ok(Image(t, l))
  {
    var image := "![" + t + "](" + l + ")";
    assert image == "!" + "[" + t + "](" + l + ")";
    BracketedShape(image, "!", t, l);
    assert image[0] == '!';
    LinkIsWord("![", t, l);
    ParseWord(image);
    DecideBracketed(image, image);
  }
}
