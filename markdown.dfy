/** The in-tree Markdown syntax tree and its HTML rendering (`ToHtml for
    Node` and `ToHtml for ListType`). A `Box<Node>` child is a plain `Node`
    value. */
module Markdown {
  import opened Wrappers

  /** A heading size, stored in Rust as a `u8`. */
  type Byte = x: int | 0 <= x < 256

  /** The two kinds of list; the tag each renders to is `ol` or `ul`. */
  datatype ListType = Ordered | Unordered

  /** Every supported Markdown element. */
  datatype Node =
    | Bold(inner: Node)
    | Italics(inner: Node)
    | Heading(inner: Node, size: Byte)
    | Text(text: string)
    | Code(code: string)
    | BlockQuote(inner: Node)
    | List(items: seq<Node>, listtype: ListType)
    | ListItem(inner: Node)
    | Link(text: string, link: string)
    | Image(text: string, link: string)
    | HR

  /** The `io::Error` the renderer can return; no variant of `Node` leads to it. */
  datatype HtmlError = Unsupported(message: string)

  /** `ToHtml for ListType`: the tag name of the list. */
  function ListTypeToHtml(t: ListType): (r: Result<string, HtmlError>)
    ensures r.Ok?
    ensures r.value == "ol" <==> t == Ordered
    ensures r.value == "ul" <==> t == Unordered
  {
    match t
    case Ordered => Ok("ol")
    case Unordered => Ok("ul")
  }

  /** One decimal digit. */
  function Digit(d: nat): char
    requires d < 10
  {
    ('0' as int + d) as char
  }

  /** The decimal text of `n`, as `format!("{}", n)` writes an unsigned integer. */
  function Decimal(n: nat): (r: string)
    ensures |r| >= 1
    ensures forall i | 0 <= i < |r| :: '0' <= r[i] <= '9'
    ensures r[0] == '0' ==> n == 0
  {
    if n < 10 then [Digit(n)] else Decimal(n / 10) + [Digit(n % 10)]
  }

  /** The number a string of decimal digits denotes. */
  function DecimalValue(s: string): nat
    requires forall i | 0 <= i < |s| :: '0' <= s[i] <= '9'
  {
    if s == [] then 0 else DecimalValue(s[..|s| - 1]) * 10 + (s[|s| - 1] as int - '0' as int)
  }

  /** Reading back the decimal text of a number gives the number. */
  lemma {:induction false} DecimalRoundTrip(n: nat)
    ensures DecimalValue(Decimal(n)) == n
  {
    if n >= 10 {
      DecimalRoundTrip(n / 10);
      var r := Decimal(n);
      assert r[..|r| - 1] == Decimal(n / 10);
    }
  }

  /** The text the items of a list accumulate, left to right. */
  function Concat(parts: seq<string>): string {
    if parts == [] then [] else Concat(parts[..|parts| - 1]) + parts[|parts| - 1]
  }

  /** The html of a node; the `Ok` value of `to_html`. */
  function Html(n: Node): string
    decreases n
  {
    match n
    case Bold(inner) => "<b>" + Html(inner) + "</b>"
    case Italics(inner) => "<i>" + Html(inner) + "</i>"
    case Heading(inner, size) => "<h" + Decimal(size) + ">" + Html(inner) + "</h" + Decimal(size) + ">"
    case Text(text) => text
    case Code(code) => "<pre><code>" + code + "</code></pre>"
    case BlockQuote(inner) => "<blockquote>" + Html(inner) + "</blockquote>"
    case List(items, listtype) =>
      var tag := ListTypeToHtml(listtype).value;
      "<" + tag + ">" + Concat(seq(|items|, i requires 0 <= i < |items| => Html(items[i]))) + "</" + tag + ">"
    case ListItem(inner) => "<li>" + Html(inner) + "</li>"
    case Link(text, link) => "<a href='" + link + "'>" + text + "</a>"
    case Image(text, link) => "<img src='" + link + "' alt='" + text + "'>"
    case HR => "<hr>"
  }

  /** The html of each item of a list, in order. */
  function ItemsHtml(items: seq<Node>): (r: seq<string>)
    ensures |r| == |items|
    ensures forall i | 0 <= i < |items| :: r[i] == Html(items[i])
  {
    seq(|items|, i requires 0 <= i < |items| => Html(items[i]))
  }

  /** `ToHtml for Node`. The result is always `Ok`: every variant has its own
      arm, so the fallback arm with `Unsupported` is never taken, and no `?`
      on an inner result ever propagates an error. */
  method ToHtml(n: Node) returns (r: Result<string, HtmlError>)
    ensures r == Ok(Html(n))
    decreases n
  {
    match n {
      case Bold(inner) =>
        var cn := ToHtml(inner);
        r := Ok("<b>" + cn.value + "</b>");
      case Italics(inner) =>
        var cn := ToHtml(inner);
        r := Ok("<i>" + cn.value + "</i>");
      case Heading(inner, size) =>
        var cn := ToHtml(inner);
        var sz := Decimal(size);
        r := Ok("<h" + sz + ">" + cn.value + "</h" + sz + ">");
      case Text(text) =>
        r := Ok(text);
      case Code(code) =>
        r := Ok("<pre><code>" + code + "</code></pre>");
      case BlockQuote(inner) =>
        var cn := ToHtml(inner);
        r := Ok("<blockquote>" + cn.value + "</blockquote>");
      case List(items, listtype) =>
        ghost var parts := ItemsHtml(items);
        var listcn: string := "";
        for i := 0 to |items|
          invariant listcn == Concat(parts[..i])
        {
          var item := ToHtml(items[i]);
          assert parts[..i + 1][..i] == parts[..i];
          listcn := listcn + (if item.Ok? then item.value else "");
        }
        assert parts[..|items|] == parts;
        var ltype := ListTypeToHtml(listtype);
        r := Ok("<" + ltype.value + ">" + listcn + "</" + ltype.value + ">");
      case ListItem(inner) =>
        var cn := ToHtml(inner);
        r := Ok("<li>" + cn.value + "</li>");
      case Link(text, link) =>
        r := Ok("<a href='" + link + "'>" + text + "</a>");
      case Image(text, link) =>
        r := Ok("<img src='" + link + "' alt='" + text + "'>");
      case HR =>
        r := Ok("<hr>");
    }
  }

  /** Gluing the parts of two lists is gluing each and joining the results. */
  lemma {:induction false} ConcatAppend(a: seq<string>, b: seq<string>)
    ensures Concat(a + b) == Concat(a) + Concat(b)
    decreases |b|
  {
    if b == [] {
      assert a + b == a;
    } else {
      var b' := b[..|b| - 1];
      assert (a + b)[..|a + b| - 1] == a + b';
      assert (a + b)[|a + b| - 1] == b[|b| - 1];
      ConcatAppend(a, b');
    }
  }

  /** A list renders as its tag around the items' html glued in list order. */
  lemma ListHtml(items: seq<Node>, t: ListType)
    ensures Html(List(items, t)) ==
      "<" + ListTypeToHtml(t).value + ">" + Concat(ItemsHtml(items)) + "</" + ListTypeToHtml(t).value + ">"
  {
  }

  /** The items of `a + b` give the html of `a`'s items followed by `b`'s. */
  lemma ListHtmlInOrder(a: seq<Node>, b: seq<Node>, t: ListType)
    ensures Html(List(a + b, t)) ==
      "<" + ListTypeToHtml(t).value + ">" + Concat(ItemsHtml(a)) + Concat(ItemsHtml(b)) + "</" + ListTypeToHtml(t).value + ">"
  {
    ItemsHtmlAppend(a, b);
    ConcatAppend(ItemsHtml(a), ItemsHtml(b));
    ListHtml(a + b, t);
  }

  /** The html of the items of `a + b`, one by one, is that of `a`'s and then `b`'s. */
  lemma ItemsHtmlAppend(a: seq<Node>, b: seq<Node>)
    ensures ItemsHtml(a + b) == ItemsHtml(a) + ItemsHtml(b)
  {
    var l, r := ItemsHtml(a + b), ItemsHtml(a) + ItemsHtml(b);
    forall i | 0 <= i < |l| ensures l[i] == r[i] {
      if i < |a| {
        assert (a + b)[i] == a[i];
      } else {
        assert (a + b)[i] == b[i - |a|];
      }
    }
  }

  /** Each item renders exactly once: the html of a list of items is the
      html of the first items followed by the html of the last one. */
  lemma ListHtmlSnoc(items: seq<Node>, last: Node, t: ListType)
    ensures Html(List(items + [last], t)) ==
      "<" + ListTypeToHtml(t).value + ">" + Concat(ItemsHtml(items)) + Html(last) + "</" + ListTypeToHtml(t).value + ">"
  {
    var parts := ItemsHtml(items + [last]);
    assert parts[..|parts| - 1] == ItemsHtml(items);
    assert Concat(parts) == Concat(ItemsHtml(items)) + Html(last);
    ListHtml(items + [last], t);
  }

  /** Text is copied without escaping: a text node renders as its text,
      so it can render exactly like another element. */
  lemma TextIsNotEscaped(x: string)
    ensures Html(Text(x)) == x
    ensures Html(Text("<hr>")) == Html(HR)
    ensures Html(Text("<b>" + x + "</b>")) == Html(Bold(Text(x)))
  {
  }
}
