# oxide, modelled in Dafny

oxide is a small static-site generator. It reads Markdown posts that start
with a YAML front matter and picks each post's HTML template from that front
matter. It fills the template's `{{title}}`, `{{date}}` and `{{content}}`
placeholders and writes one page per post, plus a home page built from a
template with a `{{list}}` placeholder. The crate also carries a toy Markdown
syntax tree with an HTML renderer, and a word-scanning parser that produces
that tree.

This project models that core and proves what it promises:

- `wrappers.dfy`: `Option` and `Result`.
- `strings.dfy`: Rust's `str::find`, `str::split` and `str::replace`. `find`
  returns the first occurrence. `split` cuts left to right at the separators
  it finds. `replace` works left to right, never overlaps, and never rescans
  what it inserted. Text is one byte per character, so byte offsets are
  sequence indices.
- `io.rs` (`io.dfy`): the `Transforms` options and `Transform for String`.
  The two case options change an owned buffer in place (an `array<char>`),
  and `NoWhitespaces` builds a new string.
- `templater.rs` (`templater.dfy`):
  - the slug of a title;
  - the post page and the home page;
  - the batch build;
  - the front-matter split of the pattern `---([\s\S]*?)----([\s\S]*?)----`;
  - the collecting loop of `PostTemplate::new_vec`.
- `lib.rs`:
  - `markdown.dfy`: `Node`, `ListType` and both `ToHtml` implementations.
  - `parser.dfy`: `Parser for String`.
- `tests.dfy`: the unit tests of `tests.rs`, stated as lemmas, plus edge cases
  of the parser.

The collaborators the generator calls but does not define are function-typed
parameters:
- `read`: reading a file, `read_string(..).unwrap()`;
- `decode`: the YAML decoder, `serde_yaml::from_str`, which gives `None` when
  decoding fails;
- `render`: the Markdown crate, `markdown::to_html`;
- `writes`: whether `fs::write` of a given file succeeds.

Each of the parser's slicing panics becomes the outcome
`Err(SliceOutOfRange)`. These are `line[2..]` on a short line, `word[..1]` of
an empty word, `word[..2]` of `*`, and a reversed range. On ASCII text the
parser's contracts cover every input, panicking ones included. Rust slices
by byte and the model by character, so on other text the two can differ. The failed
`unwrap` of the YAML decode becomes `Err(DecodePanic(post))`.

`tests.rs:6-9` expects `"test text".parse()` to be `HR`. The code returns
`Text("test")`: the first word, `test`, is plain text and returns at once.
The model follows the code, and `ParserTests.FirstWordIsText` proves the
result the code gives.

## Model

| member | source | states |
|---|---|---|
| Io.AsciiLowercase | src/io.rs:57-60 | keeps the length; each 'A'..'Z' becomes the letter 32 code points higher; every other character is kept |
| Io.AsciiUppercase | src/io.rs:61-64 | keeps the length; each 'a'..'z' becomes the letter 32 code points lower; every other character is kept |
| Io.MakeAsciiLowercase | src/io.rs:58 | lower-cases the buffer in place: afterwards it holds `AsciiLowercase` of its old contents |
| Io.MakeAsciiUppercase | src/io.rs:62 | upper-cases the buffer in place: afterwards it holds `AsciiUppercase` of its old contents |
| Io.Transformed | src/io.rs:54-69 | the value of `s.transform(t)`: `AsciiLowercase`, `AsciiUppercase`, or every space replaced by '-'; its meaning is given by `Io.TransformedCharwise` and `Io.TransformedIdempotent` |
| Io.Transform | src/io.rs:54-69 | returns the transformed text for each option; the case options go through the in-place buffer, `NoWhitespaces` through `replace(" ", "-")` |
| Io.TransformedCharwise | src/io.rs:54-69 | every option keeps the length and maps each position on its own; `NoWhitespaces` turns exactly the spaces into '-' and keeps tabs and newlines |
| Io.TransformedIdempotent | src/io.rs:54-69 | applying an option a second time changes nothing |
| Strings.Find | src/lib.rs:69-70 | `find` gives an occurrence at or after the start, with no occurrence before it, or `None` when there is none |
| Strings.FindIs | src/lib.rs:69-70 | an occurrence with none before it is what `find` returns |
| Strings.SplitOn | src/lib.rs:33-36 | `str::split` with a non-empty separator, scanning left to right: at least one piece, the first piece a prefix of the text, no piece longer than the text; `""` gives `[""]` |
| Strings.SplitOnJoin | src/lib.rs:33-36 | gluing the pieces of a split back with the separator gives the text back |
| Strings.SplitOnPiecesFree | src/lib.rs:33-36 | no piece of a split contains the separator |
| Strings.SplitOnFirst | src/lib.rs:33-36 | a split cuts at the first separator and goes on with the rest |
| Strings.SplitOnAbsent | src/lib.rs:33-36 | text without the separator is its only piece |
| Strings.ReplaceAll | src/templater.rs:41-42 | `str::replace`: each occurrence found scanning left to right becomes the value and the scan resumes after it; the result is no longer than the text when the value is no longer than the pattern |
| Strings.ReplaceAllIsJoin | src/templater.rs:41-42 | `replace` is splitting at the pattern and joining with the value |
| Strings.ReplaceAllFirstMatch | src/templater.rs:61-64 | the first occurrence is replaced and the scan resumes after it, so the inserted value is not rescanned |
| Strings.ReplaceAllUnchanged | src/templater.rs:61-64 | text without the pattern is returned unchanged |
| Strings.ReplaceAllChar | src/io.rs:65-67 | replacing one character by another maps each position on its own and keeps the length |
| Templater.Slug | src/templater.rs:59 | the file name stem: the title lower-cased, then each space replaced by '-'; `Templater.SlugCharwise` gives it position by position |
| Templater.SlugCharwise | src/templater.rs:59 | the slug keeps the title's length, turns each space into '-' and each 'A'..'Z' into its lower-case letter, and keeps every other character |
| Templater.SlugClean | src/templater.rs:59 | a slug holds no space and no upper-case ASCII letter |
| Templater.SlugIdempotent | src/templater.rs:59 | the slug of a slug is the slug |
| Templater.PostBody | src/templater.rs:61-64 | the three `replace` passes in source order, `{{title}}`, then `{{date}}`, then `{{content}}`, each on the result of the previous one |
| Templater.PostOutput | src/templater.rs:59-64 | the file one post writes: `out/<slug>.html` holding `PostBody` of the template, title, date and the rendered Markdown |
| Templater.HomeOutput | src/templater.rs:40-42 | the file the home page writes: `out/home.html` holding the template with every `{{list}}` replaced by the markup |
| Templater.BuildPost | src/templater.rs:58-65 | succeeds exactly when writing the page succeeds; the page written is `out/<slug>.html` holding the template after the title, date and content replacements; a failure names that same path |
| Templater.BuildHome | src/templater.rs:39-43 | succeeds exactly when writing the page succeeds; the page written is `out/home.html` holding the template with every `{{list}}` replaced by the markup; a failure names that same path |
| Templater.HomeTextIsJoin | src/templater.rs:41-42 | the home page is the template cut at every `{{list}}` and glued back with one copy of the markup per cut |
| Templater.HomeMarkupNotRescanned | src/templater.rs:41-42 | after the first `{{list}}` only the rest of the template is searched; the markup goes in verbatim |
| Templater.HomeWithoutPlaceholder | src/templater.rs:41-42 | a home template without `{{list}}` is written unchanged |
| Templater.PostWithoutPlaceholders | src/templater.rs:61-64 | a template with none of the three placeholders is written unchanged |
| Templater.PostContentNotRescanned | src/templater.rs:61-64 | for any template: once the title and date passes are done, the rendered content goes in verbatim at the first `{{content}}` of their result, and only the text after it is searched again |
| Templater.PostTitleRewritten | src/templater.rs:61-64 | a title is inserted before the later passes, so `{{date}}` and `{{content}}` inside it are replaced too |
| Templater.PostDateRewritten | src/templater.rs:61-64 | a date is inserted before the content pass, so `{{content}}` inside it is replaced too |
| Templater.BuildBatch | src/templater.rs:73-79 | the jobs built in order, stopping at the first failed write, with the pages written before it; see `Templater.BatchStopsAtFirstFailure` |
| Templater.BatchStopsAtFirstFailure | src/templater.rs:73-79 | the batch writes the pages of a prefix of the jobs, in order; it succeeds exactly when that prefix is all of them; otherwise the next job's write failed with that job's path and nothing after it is tried |
| Templater.BuildAll | src/templater.rs:74-78 | the loop with early return writes exactly the pages, and ends with exactly the result, of the batch build |
| Templater.Fences | src/templater.rs:94 | the fences it finds form a match of the pattern; there is a result whenever some match exists, and its fences lie at or before those of every match |
| Templater.CapturesIsLeftmostLazyMatch | src/templater.rs:94-101 | there is a capture exactly when the pattern matches; the captures are those of the leftmost match with both lazy groups shortest |
| Templater.Captures | src/templater.rs:94-108 | captures 1 and 2 of the pattern: the text between the fences `Templater.Fences` finds |
| Templater.CollectStep | src/templater.rs:98-119 | one post: no job without a match, a decode panic when `---` plus capture 1 does not decode, a job when the named template is known, no job otherwise |
| Templater.Collect | src/templater.rs:90-124 | the jobs of the posts in order, or the panic at the first undecodable post; see `Templater.CollectIsSubsequence` and `Templater.CollectPanicsAtFirstUndecodable` |
| Templater.ReadPost | src/templater.rs:98-114 | one pass of the loop gives the outcome `CollectStep` specifies: no job, a job, or a decode panic |
| Templater.NewVec | src/templater.rs:90-124 | the loop returns the jobs `Collect` specifies, or the panic at the first post whose front matter does not decode |
| Templater.CollectIsSubsequence | src/templater.rs:97-123 | the jobs come from an increasing sequence of posts, at most one job per post; every other post gives no job, and every job names a known template |
| Templater.CollectPanicsAtFirstUndecodable | src/templater.rs:102-103 | `new_vec` panics exactly when some post's front matter fails to decode, and it names the first such post |
| Templater.SkippedPostContributesNothing | src/templater.rs:101-119 | a post that gives no job can be removed from anywhere in the list without changing the result |
| Templater.NoJobCases | src/templater.rs:101-119 | a post gives no job exactly when it has no front matter, or when its front matter names a template that is not known |
| Templater.NewJobFromFrontMatter | src/templater.rs:101-114 | for a kept post: the decoder got `---` followed by capture 1 of the leftmost lazy match; the stored Markdown is capture 2; the template text is the named file in the template directory |
| Markdown.Html | src/lib.rs:150-187 | the `Ok` text of `to_html`, one arm per variant with the same tags and order; the heading size in decimal; list items glued in order |
| Markdown.ListTypeToHtml | src/lib.rs:112-118 | always `Ok`; `ol` exactly for `Ordered` and `ul` exactly for `Unordered` |
| Markdown.Decimal | src/lib.rs:158 | the `{}` format of a heading size: at least one digit, only digits, and no leading zero unless the size is 0 |
| Markdown.DecimalRoundTrip | src/lib.rs:158 | reading the decimal text back gives the size |
| Markdown.ToHtml | src/lib.rs:148-193 | rendering is total: the result is always `Ok(Html(n))`, so the `Unsupported` arm and every `?` are never taken |
| Markdown.ListHtmlInOrder | src/lib.rs:169-175 | the items of `a + b` render as those of `a` followed by those of `b` |
| Markdown.ListHtmlSnoc | src/lib.rs:171-173 | each item is rendered once, in place: adding an item at the end appends its html |
| Markdown.TextIsNotEscaped | src/lib.rs:160-162 | every text node renders as exactly its text, without escaping, so `Text("<hr>")` renders like `HR` and `Text("<b>x</b>")` like `Bold(Text("x"))` |
| MarkdownParser.Parse | src/lib.rs:29-97 | `parse`: clean the text, split it into lines, take the action of the first deciding word of the first line that has one, else `Text("")`; see `MarkdownParser.ParseMarkdown` |
| MarkdownParser.Clean | src/lib.rs:32 | every `\r\n\r` removed; the result is no longer than the text |
| MarkdownParser.ScanWords | src/lib.rs:37-93 | the action of the first word of a line that decides, or `Pass`; every text it descends into is shorter than the line |
| MarkdownParser.ScanLines | src/lib.rs:35-96 | the action of the first line that has a deciding word, or `Pass`; every text it descends into is shorter than the bound on the lines |
| MarkdownParser.Decide | src/lib.rs:41-92 | every text a word descends into is shorter than the line, so the recursive parse terminates |
| MarkdownParser.ParseMarkdown | src/lib.rs:29-97 | the nested loops over lines and words, with their early returns, give `Parse(s)` |
| MarkdownParser.DecideWord | src/lib.rs:41-93 | the `match word` arms give `None` exactly for the words that let the loop go on; otherwise they give the outcome of the word's action |
| MarkdownParser.Bracketed | src/lib.rs:67-86 | a word starting with '!' or '[': the image or link between the first '[' and ']' and the first '(' and ')', a panic when a range is reversed, `Pass` when a bracket is missing |
| MarkdownParser.LinkOrImage | src/lib.rs:67-86 | the `!` and `[` arms give the image or link between the first four brackets, a panic when a range is reversed, and `None` when a bracket is missing |
| MarkdownParser.ScanWordsFirstDecisive | src/lib.rs:37-93 | the first word of a line that does not pass decides the line |
| MarkdownParser.ScanWordsAllPassed | src/lib.rs:37-94 | a line whose every word passes decides nothing |
| MarkdownParser.ScanLinesFirstDecisive | src/lib.rs:35-96 | after lines whose words all pass, the first line with a deciding word decides the whole text |
| MarkdownParser.ScanLinesExhausted | src/lib.rs:35-96 | when no line has a deciding word, the result is `Text("")` |
| MarkdownParser.DecidePassesOver | src/lib.rs:52-86 | a word passes exactly when it is `-` or ```` ``` ````, or starts with `!` or `[` and lacks one of the four brackets |
| MarkdownParser.ParseFirstWord | src/lib.rs:35-41 | a line is split at its first space; when its first word decides, that word's action is the result |
| MarkdownParser.ParseLineToken | src/lib.rs:43-51 | `#`, `##`, `###` and `>` followed by a space give a heading of size 1, 2 or 3, or a blockquote, around the parse of the rest of the line |
| MarkdownParser.ParseWord | src/lib.rs:33-41 | a single word gives what its own action gives |
| MarkdownParser.ParseText | src/lib.rs:87-90 | a plain word is its own text |
| MarkdownParser.ParsePlainFirstWord | src/lib.rs:87-90 | a line starting with a plain word is the text of that word, whatever follows it |
| MarkdownParser.ParseBold | src/lib.rs:59-61 | `**u**` is bold around the parse of `u` |
| MarkdownParser.ParseItalics | src/lib.rs:62-65 | `*u*`, with `u` not starting with `*`, is italics around the parse of `u` |
| MarkdownParser.BracketsOf | src/lib.rs:69-72 | in `p[t](l)` the first four brackets enclose exactly `t` and `l` |
| MarkdownParser.ParseLink | src/lib.rs:77-86 | `[t](l)` is the link with text `t` and target `l` |
| MarkdownParser.ParseImage | src/lib.rs:67-76 | `![t](l)` is the image with text `t` and source `l` |
| ParserTests.ImageTest | src/tests.rs:11-15 | `![text](link)` is `Image{text, link}` |
| ParserTests.HyperlinkTest | src/tests.rs:17-21 | `[text](link)` is `Link{text, link}` |
| ParserTests.HeadingTest | src/tests.rs:28-32 | `# ## ### test` is headings 1, 2 and 3 nested around `Text("test")` |
| ParserTests.NestedHeadings | src/lib.rs:43-47 | the three markers in a row before any plain word nest headings 1, 2 and 3 around its text |
| ParserTests.BoldTest | src/tests.rs:34-38 | `**bold**` is `Bold(Text("bold"))` |
| ParserTests.ItalicTest | src/tests.rs:40-44 | `*italic*` is `Italics(Text("italic"))` |
| ParserTests.BlockquoteTest | src/tests.rs:46-50 | `> test` is `BlockQuote(Text("test"))` |
| ParserTests.HrTest | src/tests.rs:52-56 | `---` is `HR` |
| ParserTests.FirstWordIsText | src/tests.rs:6-9 | `test text` is `Text("test")`, not the `HR` the test expects |
| ParserTests.EmptyTextPanics | src/lib.rs:57 | the empty text has one empty word, and `word[..1]` of it panics |
| ParserTests.LoneMarkerPanics | src/lib.rs:43 | `#` alone panics on `line[2..]` |
| ParserTests.LoneStarPanics | src/lib.rs:59 | `*` alone panics on `word[..2]` |
| ParserTests.LoneDoubleStarPanics | src/lib.rs:61 | `**` alone panics on `word[2..len-2]` |
| ParserTests.PassedOverLine | src/lib.rs:52-53 | `- ```` ``` ```` passes over both words and gives `Text("")` |
| ParserTests.HeadingOffsetFromLineStart | src/lib.rs:43 | after a passed-over `-`, the `#` slices the line from its third character, so `- # x` gives two nested headings |

## Left out

- The file helpers `list_files`, `read_string`, `read_vec` and `lines` (src/io.rs:5-42) are file-system I/O. Reading is the `read` parameter, which always returns a text: the panic of `read_string(..).unwrap()` on an unreadable file is not modelled.
- `fs::write` becomes the `writes` parameter. The `println!` and `eprintln!` notices (src/templater.rs:45, 67, 116, 118; src/lib.rs:38) are output only and are left out.
- `markdown::to_html` and `serde_yaml::from_str` are foreign libraries and become the `render` and `decode` parameters. `new_vec` decodes the same capture twice (src/templater.rs:102 and 113); the decoder is a function of its text, so the model decodes once and keeps that `Conf`.
- The `regex` and `lazy_static` machinery is left out; only the one front-matter pattern is modelled, through its three fences.
- The driver src/oxide.rs is I/O only and is not part of this model.
- The stubs `Document`, `Document::parse`, `ToHtml for Document` (`todo!()`) and `Node::parse(&self)` (src/lib.rs:19-27, 100-104, 139-143) do nothing and are left out.
- MarkdownParser.ParseMarkdown: the model agrees with the source on ASCII text only. It counts offsets in characters, while `line[2..]`, `line[3..]`, `line[4..]` and the word slices of src/lib.rs:43-86 count bytes. On text with multi-byte UTF-8 characters the two can give different nodes, and the panics of slices that cut such a character are not modelled.
- Templater.NewVec: posts are paths modelled as `string`. The panic of `post.to_str().expect("Invalid path format")` (src/templater.rs:116 and 118) on a path that is not valid UTF-8 is not modelled.
- The navigation markup the home page receives is built outside these files; the model takes it as the `markup` field.
- The fallback arm at src/lib.rs:188-190 has no counterpart, because every `Node` variant has its own arm; `Markdown.ToHtml` proves the result is always `Ok`.
