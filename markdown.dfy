/** `htmlToMarkdown`: a fixed chain of global regular-expression replacements that drops
    hidden markup, rewrites a handful of elements as Markdown, strips every remaining tag,
    decodes six entities, collapses runs of blank lines and trims the result. */
module Markdown {
  import opened Strings
  import opened Patterns

  /** The global replacements `rules`, applied one after the other. */
  function Passes(rules: seq<Rule>, s: string): string
    decreases |rules|
  {
    if rules == [] then s else Passes(rules[1..], ReplaceAll(rules[0], s))
  }

  /** Script and style elements with their content, then comments. */
  const Hidden: seq<Rule> := [Elided("script"), Elided("style"), Comment]

  /** Headings, paragraphs, line breaks, emphasis, links and images, in this order. */
  const Formatting: seq<Rule> := [
    Element("h1", "# ", "\n\n"),
    Element("h2", "## ", "\n\n"),
    Element("h3", "### ", "\n\n"),
    Element("h4", "#### ", "\n\n"),
    Element("h5", "##### ", "\n\n"),
    Element("h6", "###### ", "\n\n"),
    Element("p", "", "\n\n"),
    LineBreak,
    Element("strong", "**", "**"),
    Element("b", "**", "**"),
    Element("em", "*", "*"),
    Element("i", "*", "*"),
    Link,
    Image(true),
    Image(false)
  ]

  /** Quotations, inline code and preformatted blocks, after the lists. */
  const Blocks: seq<Rule> := [
    Element("blockquote", "> ", "\n\n"),
    Element("code", "`", "`"),
    Element("pre", "```\n", "\n```\n\n")
  ]

  /** The six entities, `&amp;` before `&lt;` and `&gt;`. */
  const Entities: seq<Rule> := [
    Literal("&nbsp;", " "),
    Literal("&amp;", "&"),
    Literal("&lt;", "<"),
    Literal("&gt;", ">"),
    Literal("&quot;", "\""),
    Literal("&#39;", "'")
  ]

  /** An item of an unordered list: `<li[^>]*>(.*?)<\/li>` becomes `- $1\n`. */
  const Bullet: Rule := Element("li", "- ", "\n")

  /** `<ul[^>]*>([\s\S]*?)<\/ul>` at `p`, replaced by its content with every item bulleted. */
  function BulletListAt(s: string, p: nat): (r: Option<Hit>)
    ensures r.Some? ==> p < r.value.end <= |s|
  {
    match Enclosed(s, p, "ul")
    case None => None
    case Some(b) => Some(Hit(b.1 + 5, ReplaceAll(Bullet, s[b.0..b.1])))
  }

  /** The items of an ordered list's content from `p`, numbered from `n`. The replacement
      callback returns the text `n. $1` followed by a line feed, and a callback's result is
      not expanded, so each item's text is replaced by the two characters `$1`. */
  function Numbered(s: string, p: nat, n: nat): string
    requires p <= |s|
    decreases |s| - p
  {
    if p == |s| then []
    else match HitAt(Of(Element("li", "", "")), s, p)
      case Some(h) => NatToString(n) + ". $1\n" + Numbered(s, h.end, n + 1)
      case None => [s[p]] + Numbered(s, p + 1, n)
  }

  /** `<ol[^>]*>([\s\S]*?)<\/ol>` at `p`, replaced by its numbered items; the counter
      starts again at 1 in every list. */
  function NumberedListAt(s: string, p: nat): (r: Option<Hit>)
    ensures r.Some? ==> p < r.value.end <= |s|
  {
    match Enclosed(s, p, "ol")
    case None => None
    case Some(b) => Some(Hit(b.1 + 5, Numbered(s[b.0..b.1], 0, 1)))
  }

  const BulletLists: Matcher := (s: string, p: nat) => BulletListAt(s, p)
  const NumberedLists: Matcher := (s: string, p: nat) => NumberedListAt(s, p)

  /** The unordered lists, then the ordered ones. */
  function Lists(s: string): string {
    var u := ReplaceFrom(BulletLists, s, 0);
    ReplaceFrom(NumberedLists, u, 0)
  }

  /** Everything up to the tag-stripping pass. */
  function Rendered(html: string): string {
    Passes(Blocks, Lists(Passes(Formatting, Passes(Hidden, html))))
  }

  /** `<[^>]+>` removed from the rendered text. */
  function Stripped(html: string): string {
    ReplaceAll(AnyTag, Rendered(html))
  }

  function Decoded(html: string): string {
    Passes(Entities, Stripped(html))
  }

  /** Runs of blank lines collapsed, then `trim`. The result neither starts nor ends with
      a space, and it holds no three line feeds separated only by spaces. */
  function Tidy(s: string): (r: string)
    ensures r != [] ==> !IsSpace(r[0]) && !IsSpace(r[|r| - 1])
    ensures forall p :: 0 <= p < |r| ==> BlankLinesAt(r, p).None?
  {
    var c := ReplaceAll(BlankLines, s);
    CollapseCalm(c, s);
    TrimCalm(c);
    TrimSpec(c);
    Trim(c)
  }

  /** `htmlToMarkdown`. */
  function HtmlToMarkdown(html: string): (r: string)
    ensures r != [] ==> !IsSpace(r[0]) && !IsSpace(r[|r| - 1])
    ensures forall p :: 0 <= p < |r| ==> BlankLinesAt(r, p).None?
  {
    Tidy(Decoded(html))
  }

  // ----- No tag survives the stripping pass -----

  /** No `>` at or after `j`. */
  predicate NoGreater(r: string, j: nat) {
    forall k :: j <= k < |r| ==> r[k] != '>'
  }

  /** A `<` at `i` is followed at once by `>`, or by no `>` at all. */
  predicate Closed(r: string, i: nat)
    requires i < |r|
  {
    r[i] == '<' ==> (i + 1 < |r| && r[i + 1] == '>') || NoGreater(r, i + 1)
  }

  predicate TagFree(r: string) {
    forall i :: 0 <= i < |r| ==> Closed(r, i)
  }

  /** Where a text is closed, `<[^>]+>` does not match. */
  lemma TagFreeNoTag(r: string)
    requires TagFree(r)
    ensures NoMatch(AnyTag, r)
  {
    forall i | 0 <= i < |r| ensures AnyTagAt(r, i).None? {
      assert Closed(r, i);
    }
  }

  /** The stripping pass output, from `p` on. */
  function StripFrom(s: string, p: nat): string
    requires p <= |s|
  {
    ReplaceFrom(Of(AnyTag), s, p)
  }

  lemma {:induction false} StripNoGreater(s: string, p: nat)
    requires p <= |s| && NoGreater(s, p)
    ensures NoGreater(StripFrom(s, p), 0)
    decreases |s| - p
  {
    if p < |s| {
      HitAtOf(AnyTag, s, p);
      StripNoGreater(s, p + 1);
      assert StripFrom(s, p) == [s[p]] + StripFrom(s, p + 1);
    }
  }

  lemma StripKeepsGreater(s: string, p: nat)
    requires p < |s| && s[p] == '>'
    ensures StripFrom(s, p) != [] && StripFrom(s, p)[0] == '>'
  {
    HitAtOf(AnyTag, s, p);
    assert StripFrom(s, p) == [s[p]] + StripFrom(s, p + 1);
  }

  lemma ClosedCons(c: char, y: string, i: nat)
    requires 0 < i <= |y| && Closed(y, i - 1)
    ensures Closed([c] + y, i)
  {
    var x := [c] + y;
    assert x[i] == y[i - 1];
    if i + 1 < |x| { assert x[i + 1] == y[i]; }
    if NoGreater(y, i) {
      forall k | i + 1 <= k < |x| ensures x[k] != '>' { assert x[k] == y[k - 1]; }
    }
  }

  lemma {:induction false} StripTagFree(s: string, p: nat)
    requires p <= |s|
    ensures TagFree(StripFrom(s, p))
    decreases |s| - p
  {
    if p < |s| {
      HitAtOf(AnyTag, s, p);
      match AnyTagAt(s, p)
      case Some(h) =>
        StripTagFree(s, h.end);
        assert StripFrom(s, p) == StripFrom(s, h.end);
      case None =>
        var y := StripFrom(s, p + 1);
        StripTagFree(s, p + 1);
        var x := [s[p]] + y;
        assert StripFrom(s, p) == x;
        forall i | 0 < i < |x| ensures Closed(x, i) {
          ClosedCons(s[p], y, i);
        }
        if s[p] == '<' {
          match Next(s, p + 1, '>')
          case None =>
            StripNoGreater(s, p + 1);
            forall k | 1 <= k < |x| ensures x[k] != '>' { assert x[k] == y[k - 1]; }
          case Some(g) =>
            StripKeepsGreater(s, p + 1);
        }
        assert Closed(x, 0);
    }
  }

  /** After `<[^>]+>` has been removed globally, it matches nowhere: every `<` left is
      followed at once by `>` or by no `>` at all. */
  lemma StrippedTagFree(html: string)
    ensures TagFree(Stripped(html)) && NoMatch(AnyTag, Stripped(html))
  {
    StripTagFree(Rendered(html), 0);
    TagFreeNoTag(Stripped(html));
  }

  // ----- Blank-line collapsing -----

  /** Line feeds in the whitespace run starting at `p`. */
  function RunNewlines(x: string, p: nat): nat
    requires p <= |x|
  {
    Newlines(x, p, SkipSpace(x, p))
  }

  /** No whitespace run holds three line feeds. */
  predicate Calm(x: string) {
    forall p :: 0 <= p <= |x| ==> RunNewlines(x, p) < 3
  }

  lemma RunStep(x: string, p: nat)
    requires p < |x|
    ensures RunNewlines(x, p) == if IsSpace(x[p]) then (if x[p] == '\n' then 1 else 0) + RunNewlines(x, p + 1) else 0
  {
  }

  /** A run inside a slice is at most the run in the whole text, and the same when the
      slice reaches the end. */
  lemma {:induction false} RunSlice(x: string, a: nat, b: nat, i: nat)
    requires a <= b <= |x| && i <= b - a
    ensures RunNewlines(x[a..b], i) <= RunNewlines(x, a + i)
    ensures b == |x| ==> RunNewlines(x[a..b], i) == RunNewlines(x, a + i)
    decreases b - a - i
  {
    var y := x[a..b];
    if i < |y| {
      RunStep(y, i);
      RunStep(x, a + i);
      assert y[i] == x[a + i];
      if IsSpace(y[i]) { RunSlice(x, a, b, i + 1); }
    } else {
      assert RunNewlines(y, i) == 0;
    }
  }

  lemma CalmSlice(x: string, a: nat, b: nat)
    requires Calm(x) && a <= b <= |x|
    ensures Calm(x[a..b])
  {
    forall i | 0 <= i <= b - a ensures RunNewlines(x[a..b], i) < 3 {
      RunSlice(x, a, b, i);
    }
  }

  lemma ConsRun(c: char, y: string)
    ensures RunNewlines([c] + y, 0) == if IsSpace(c) then (if c == '\n' then 1 else 0) + RunNewlines(y, 0) else 0
  {
    var x := [c] + y;
    RunStep(x, 0);
    assert x[1..|x|] == y;
    RunSlice(x, 1, |x|, 0);
  }

  lemma CalmCons(c: char, y: string)
    requires Calm(y) && RunNewlines([c] + y, 0) < 3
    ensures Calm([c] + y)
  {
    var x := [c] + y;
    assert x[1..|x|] == y;
    forall i | 0 <= i <= |x| ensures RunNewlines(x, i) < 3 {
      if i > 0 { RunSlice(x, 1, |x|, i - 1); }
    }
  }

  lemma {:induction false} SkipFrom(s: string, p: nat, k: nat)
    requires p <= |s| && p <= k <= SkipSpace(s, p)
    ensures SkipSpace(s, k) == SkipSpace(s, p)
    decreases k - p
  {
    if p < k { SkipFrom(s, p + 1, k); }
  }

  /** The collapsing pass output, from `p` on. */
  function CollapseFrom(s: string, p: nat): string
    requires p <= |s|
  {
    ReplaceFrom(Of(BlankLines), s, p)
  }

  /** The collapsing pass leaves a calm text, and the run at its start holds no more line
      feeds than the run it came from. */
  predicate Collapsed(s: string, p: nat)
    requires p <= |s|
  {
    Calm(CollapseFrom(s, p)) && RunNewlines(CollapseFrom(s, p), 0) <= RunNewlines(s, p)
  }

  lemma {:induction false} CollapseRun(s: string, p: nat)
    requires p <= |s|
    ensures Collapsed(s, p)
    decreases |s| - p
  {
    if p == |s| {
      assert CollapseFrom(s, p) == [];
    } else {
      HitAtOf(BlankLines, s, p);
      match BlankLinesAt(s, p)
      case Some(h) =>
        CollapseRun(s, h.end);
        CollapseHit(s, p);
      case None =>
        CollapseRun(s, p + 1);
        CollapseCopy(s, p);
    }
  }

  /** A match becomes two line feeds before the collapsed rest. */
  lemma CollapseHit(s: string, p: nat)
    requires p < |s| && BlankLinesAt(s, p).Some? && HitAt(Of(BlankLines), s, p) == BlankLinesAt(s, p)
    requires Collapsed(s, BlankLinesAt(s, p).value.end)
    ensures Collapsed(s, p)
  {
    BlankRun(s, p);
    ReplaceHit(Of(BlankLines), s, p);
    CalmPair(CollapseFrom(s, BlankLinesAt(s, p).value.end));
  }

  /** Without a match the character is copied before the collapsed rest. */
  lemma CollapseCopy(s: string, p: nat)
    requires p < |s| && BlankLinesAt(s, p).None? && HitAt(Of(BlankLines), s, p) == BlankLinesAt(s, p)
    requires Collapsed(s, p + 1)
    ensures Collapsed(s, p)
  {
    QuietRun(s, p);
    ReplaceStep(Of(BlankLines), s, p);
    ConsRun(s[p], CollapseFrom(s, p + 1));
    CalmCons(s[p], CollapseFrom(s, p + 1));
  }

  /** Where `\n\s*\n\s*\n` matches, the run holds at least three line feeds and the text
      after the match starts no run. */
  lemma BlankRun(s: string, p: nat)
    requires p <= |s| && BlankLinesAt(s, p).Some?
    ensures RunNewlines(s, p) >= 3 && RunNewlines(s, BlankLinesAt(s, p).value.end) == 0
  {
    var w := SkipSpace(s, p);
    var l := LastNewline(s, p, w).value;
    SkipFrom(s, p, l + 1);
  }

  /** Where it does not match, a line feed starts a run of fewer than three. */
  lemma QuietRun(s: string, p: nat)
    requires p < |s| && BlankLinesAt(s, p).None?
    ensures RunNewlines(s, p) == if IsSpace(s[p]) then (if s[p] == '\n' then 1 else 0) + RunNewlines(s, p + 1) else 0
    ensures s[p] == '\n' ==> RunNewlines(s, p) < 3
  {
    RunStep(s, p);
  }

  /** Two line feeds before a calm text that starts no run give a calm text. */
  lemma CalmPair(y: string)
    requires Calm(y) && RunNewlines(y, 0) == 0
    ensures Calm("\n\n" + y) && RunNewlines("\n\n" + y, 0) == 2
  {
    ConsRun('\n', y);
    CalmCons('\n', y);
    ConsRun('\n', ['\n'] + y);
    CalmCons('\n', ['\n'] + y);
    assert "\n\n" + y == ['\n'] + (['\n'] + y);
  }

  /** After `\n\s*\n\s*\n` has been replaced globally by two line feeds, no whitespace run
      holds three line feeds. */
  lemma CollapseCalm(c: string, s: string)
    requires c == ReplaceAll(BlankLines, s)
    ensures Calm(c)
  {
    CollapseRun(s, 0);
  }

  /** Trimming keeps a text calm, and a calm text matches `\n\s*\n\s*\n` nowhere. */
  lemma TrimCalm(c: string)
    requires Calm(c)
    ensures Calm(Trim(c))
    ensures forall p :: 0 <= p < |Trim(c)| ==> BlankLinesAt(Trim(c), p).None?
  {
    if Lead(c) < Tail(c) { CalmSlice(c, Lead(c), Tail(c)); }
    var r := Trim(c);
    forall p | 0 <= p < |r| ensures BlankLinesAt(r, p).None? {
      assert RunNewlines(r, p) < 3;
    }
  }

  // ----- Entities -----

  /** `&amp;` is decoded before `&lt;`, so a double-escaped `<` comes out as `<`. */
  lemma EntityOrder()
    ensures Passes(Entities, "&amp;lt;") == "<"
  {
    LiteralAbsent("&amp;lt;", "&nbsp;", " ", 1);
    AmpDecoded();
    LtDecoded();
    LiteralAbsent("<", "&gt;", ">", 0);
    LiteralAbsent("<", "&quot;", "\"", 0);
    LiteralAbsent("<", "&#39;", "'", 0);
  }

  /** A text without the literal is left unchanged by its replacement. */
  lemma LiteralAbsent(s: string, pattern: string, replacement: string, k: nat)
    requires k < |pattern| && pattern[k] !in s
    ensures ReplaceAll(Literal(pattern, replacement), s) == s
  {
    forall q: nat ensures !At(s, q, pattern, false) {
      if q + |pattern| <= |s| { assert s[q + k] in s; }
    }
    FirstLiteral(s, pattern, replacement, 0);
    ReplaceFromFirst(Of(Literal(pattern, replacement)), s);
  }

  /** A text that is the literal followed by text without it: the literal is replaced. */
  lemma LiteralLeading(s: string, pattern: string, replacement: string)
    requires |pattern| > 0 && At(s, 0, pattern, false)
    requires Find(s, |pattern|, pattern, false).None?
    ensures ReplaceAll(Literal(pattern, replacement), s) == replacement + s[|pattern|..]
  {
    var m := Of(Literal(pattern, replacement));
    FirstLiteral(s, pattern, replacement, 0);
    ReplaceFromFirst(m, s);
    FirstLiteral(s, pattern, replacement, |pattern|);
    ReplaceSkips(m, s, |pattern|, |s|);
    assert ReplaceFrom(m, s, |s|) == [];
  }

  lemma AmpDecoded()
    ensures ReplaceAll(Literal("&amp;", "&"), "&amp;lt;") == "&lt;"
  {
    LiteralLeading("&amp;lt;", "&amp;", "&");
  }

  lemma LtDecoded()
    ensures ReplaceAll(Literal("&lt;", "<"), "&lt;") == "<"
  {
    LiteralLeading("&lt;", "&lt;", "<");
  }

  // ----- Elements -----

  function Opening(tag: string, attrs: string): string {
    "<" + tag + attrs + ">"
  }

  function Closing(tag: string): string {
    "</" + tag + ">"
  }

  /** `<tag attrs>x</tag>`. */
  function Wrapped(tag: string, attrs: string, x: string): string {
    Opening(tag, attrs) + x + Closing(tag)
  }

  /** `<tag[^>]*>` matches an opening tag whose attributes hold no `>`, to its end. */
  lemma OpeningEnd(tag: string, attrs: string, x: string, c: string)
    requires forall i :: 0 <= i < |attrs| ==> attrs[i] != '>'
    ensures OpenEnd(Opening(tag, attrs) + x + c, 0, tag) == Some(|Opening(tag, attrs)|)
  {
    var o := Opening(tag, attrs);
    var s := o + x + c;
    var open := "<" + tag;
    assert o == open + attrs + ">";
    forall k | 0 <= k < |open| ensures Same(s[k], open[k], true) {
      assert s[k] == o[k] == open[k];
    }
    assert At(s, 0, open, true);
    forall q | 1 + |tag| <= q < |o| - 1 ensures s[q] != '>' {
      assert s[q] == o[q] == attrs[q - 1 - |tag|];
    }
    assert s[|o| - 1] == o[|o| - 1] == '>';
    NextFirst(s, 1 + |tag|, '>', |o| - 1);
  }

  lemma NotOpening(s: string, q: nat, lit: string)
    requires q < |s| && s[q] != '<' && |lit| > 0 && lit[0] == '<'
    ensures !At(s, q, lit, true)
  {
    assert !Same(s[q + 0], lit[0], true);
  }

  /** No `<` and no line terminator in `s[a..j]`. */
  predicate Plain(s: string, a: nat, j: nat)
    requires a <= j <= |s|
    decreases j - a
  {
    a == j || (s[a] != '<' && !IsLineTerminator(s[a]) && Plain(s, a + 1, j))
  }

  /** Element content this model follows: no `<` and no line terminator. */
  predicate Text(x: string) {
    Plain(x, 0, |x|)
  }

  /** No `>` in `a[i..]`. */
  predicate NoClose(a: string, i: nat)
    requires i <= |a|
    decreases |a| - i
  {
    i == |a| || (a[i] != '>' && NoClose(a, i + 1))
  }

  /** Attributes this model follows: no `>` among them. */
  predicate Attributes(a: string) {
    NoClose(a, 0)
  }

  lemma {:induction false} NoCloseAll(a: string, i: nat)
    requires i <= |a| && NoClose(a, i)
    ensures forall k :: i <= k < |a| ==> a[k] != '>'
    decreases |a| - i
  {
    if i < |a| { NoCloseAll(a, i + 1); }
  }

  /** `(.*?)` followed by a literal that starts with `<` runs over plain text to the
      literal. */
  lemma {:induction false} LazyPlain(s: string, a: nat, lit: string, j: nat)
    requires a <= j && At(s, j, lit, true) && |lit| > 0 && lit[0] == '<' && Plain(s, a, j)
    ensures Lazy(s, a, lit) == Some(j)
    decreases j - a
  {
    if a < j {
      NotOpening(s, a, lit);
      LazyPlain(s, a + 1, lit, j);
    }
  }

  lemma {:induction false} PlainMiddle(u: string, x: string, c: string, i: nat)
    requires i <= |x| && Plain(x, i, |x|)
    ensures Plain(u + x + c, |u| + i, |u| + |x|)
    decreases |x| - i
  {
    if i < |x| {
      assert (u + x + c)[|u| + i] == x[i];
      PlainMiddle(u, x, c, i + 1);
    }
  }

  lemma MiddleFacts(u: string, x: string, c: string)
    requires Text(x)
    ensures At(u + x + c, |u| + |x|, c, true) && Plain(u + x + c, |u|, |u| + |x|)
  {
    AtTail(u + x, c, true);
    PlainMiddle(u, x, c, 0);
  }

  /** `(.*?)<\/tag>` run over content without `<` and line terminators stops at the
      closing tag right after it. */
  lemma ClosingFound(u: string, x: string, tag: string)
    requires Text(x)
    ensures Lazy(u + x + Closing(tag), |u|, Closing(tag)) == Some(|u| + |x|)
  {
    var c := Closing(tag);
    assert |c| > 0 && c[0] == '<';
    MiddleFacts(u, x, c);
    LazyPlain(u + x + c, |u|, c, |u| + |x|);
  }

  /** Where the opening tag ends at `a` and the closing tag starts at `j`, the element
      pattern captures `s[a..j]`. */
  lemma InlineAt(s: string, tag: string, a: nat, j: nat)
    requires OpenEnd(s, 0, tag) == Some(a) && a <= |s| && Lazy(s, a, Closing(tag)) == Some(j)
    ensures Inline(s, 0, tag) == Some((a, j))
  {
  }

  lemma InlineWrapped(tag: string, attrs: string, x: string)
    requires Attributes(attrs) && Text(x)
    ensures Inline(Opening(tag, attrs) + x + Closing(tag), 0, tag)
      == Some((|Opening(tag, attrs)|, |Opening(tag, attrs)| + |x|))
  {
    NoCloseAll(attrs, 0);
    OpeningEnd(tag, attrs, x, Closing(tag));
    ClosingFound(Opening(tag, attrs), x, tag);
    InlineAt(Opening(tag, attrs) + x + Closing(tag), tag, |Opening(tag, attrs)|, |Opening(tag, attrs)| + |x|);
  }

  /** `<tag[^>]*>(.*?)<\/tag>` matches `<tag attrs>x</tag>` whole and captures `x`, for
      attributes without `>` and content without `<` and line terminators. */
  lemma WrappedMatched(tag: string, attrs: string, x: string)
    requires Attributes(attrs) && Text(x)
    ensures var o := Opening(tag, attrs);
      && Inline(Wrapped(tag, attrs, x), 0, tag) == Some((|o|, |o| + |x|))
      && |o| + |x| + |tag| + 3 == |Wrapped(tag, attrs, x)|
      && Wrapped(tag, attrs, x)[|o|..|o| + |x|] == x
  {
    InlineWrapped(tag, attrs, x);
    WrappedShape(tag, attrs, x);
  }

  /** The content of `<tag attrs>x</tag>` sits between the opening tag and the closing tag. */
  lemma WrappedShape(tag: string, attrs: string, x: string)
    ensures var o := Opening(tag, attrs);
      |o| + |x| + |tag| + 3 == |Wrapped(tag, attrs, x)| && Wrapped(tag, attrs, x)[|o|..|o| + |x|] == x
  {
    MiddleSlice(Opening(tag, attrs), x, Closing(tag));
  }

  lemma MiddleSlice(u: string, x: string, c: string)
    ensures (u + x + c)[|u|..|u| + |x|] == x
  {
  }

  /** A text that the element pattern matches whole, capturing `x`, is replaced by
      `before`, `x` and `after`. */
  lemma ElementRendered(s: string, tag: string, before: string, after: string, a: nat, j: nat, x: string)
    requires Inline(s, 0, tag) == Some((a, j)) && j + |tag| + 3 == |s| && s[a..j] == x
    ensures ReplaceAll(Element(tag, before, after), s) == before + x + after
  {
    var m := Of(Element(tag, before, after));
    ElementHit(s, 0, tag, before, after);
    ReplaceHit(m, s, 0);
    assert ReplaceFrom(m, s, |s|) == [];
  }

  /** In particular an unordered item becomes its text after `- `, on a line of its own. */
  lemma BulletItem(s: string, a: nat, j: nat, x: string)
    requires Inline(s, 0, "li") == Some((a, j)) && j + 5 == |s| && s[a..j] == x
    ensures ReplaceAll(Bullet, s) == "- " + x + "\n"
  {
    ElementRendered(s, "li", "- ", "\n", a, j, x);
  }

  /** `<tag[^>]*>` matches wherever a longer tag name `tag + rest` does, and to the same
      end, as long as `rest` holds no `>`. */
  lemma OpeningPrefix(s: string, p: nat, tag: string, rest: string)
    requires forall i :: 0 <= i < |rest| ==> rest[i] != '>'
    requires OpenEnd(s, p, tag + rest).Some?
    ensures OpenEnd(s, p, tag) == OpenEnd(s, p, tag + rest)
  {
    var long := "<" + (tag + rest);
    var short := "<" + tag;
    assert At(s, p, long, true);
    forall k | 0 <= k < |short| ensures Same(s[p + k], short[k], true) {
      assert short[k] == long[k];
    }
    forall q | p + 1 + |tag| <= q < p + 1 + |tag| + |rest| ensures s[q] != '>' {
      var k := q - p;
      assert long[k] == rest[k - 1 - |tag|];
      assert Same(s[p + k], long[k], true);
    }
    var e := OpenEnd(s, p, tag + rest).value;
    NextFirst(s, p + 1 + |tag|, '>', e - 1);
  }

  /** Attribute values this model follows: no `"` and no `>`, and no `=` at the end. */
  predicate Quoted(v: string) {
    (forall i :: 0 <= i < |v| ==> v[i] != '"' && v[i] != '>') && (v == [] || v[|v| - 1] != '=')
  }

  lemma QuotedChar(v: string, i: nat)
    requires Quoted(v) && i < |v|
    ensures !Same(v[i], '"', true) && !Same(v[i], '>', true)
    ensures i == |v| - 1 ==> !Same(v[i], '=', true)
  {
  }

  function LinkOpening(v: string): string {
    "<a href=\"" + v + "\">"
  }

  /** `<a href="v">x</a>`. */
  function LinkElement(v: string, x: string): string {
    LinkOpening(v) + x + "</a>"
  }

  /** Where the pieces of `<a href="v">x</a>` sit in `s`. */
  predicate LinkShape(s: string, v: string, x: string) {
    && |s| == 15 + |v| + |x|
    && (forall k :: 0 <= k < 9 ==> s[k] == "<a href=\""[k])
    && (forall k :: 0 <= k < |v| ==> s[9 + k] == v[k])
    && s[9 + |v|] == '"' && s[10 + |v|] == '>'
    && (forall k :: 0 <= k < |x| ==> s[11 + |v| + k] == x[k])
    && (forall k :: 0 <= k < 4 ==> s[11 + |v| + |x| + k] == "</a>"[k])
  }

  lemma LinkShaped(v: string, x: string)
    ensures LinkShape(LinkElement(v, x), v, x)
  {
    var s := LinkElement(v, x);
    var o := LinkOpening(v);
    assert forall k :: 0 <= k < |o| ==> s[k] == o[k];
    assert forall k :: 0 <= k < |v| ==> o[9 + k] == v[k];
    assert forall k :: 0 <= k < |x| ==> s[11 + |v| + k] == x[k];
    assert forall k :: 0 <= k < 4 ==> s[11 + |v| + |x| + k] == "</a>"[k];
  }

  /** Characters copied from `x` to `s` at `a` keep `x` plain there. */
  lemma {:induction false} PlainCopy(s: string, a: nat, x: string, i: nat)
    requires a + |x| <= |s| && i <= |x| && Plain(x, i, |x|)
    requires forall k :: 0 <= k < |x| ==> s[a + k] == x[k]
    ensures Plain(s, a + i, a + |x|)
    decreases |x| - i
  {
    if i < |x| {
      assert s[a + i] == x[i];
      PlainCopy(s, a, x, i + 1);
    }
  }

  /** The link pattern's greedy `[^>]*` gives back exactly as far as the `href` attribute. */
  lemma LinkHref(s: string, v: string, x: string)
    requires LinkShape(s, v, x) && Quoted(v)
    ensures At(s, 0, "<a", true)
    ensures Next(s, 2, '>') == Some(10 + |v|)
    ensures At(s, 3, "href=\"", true)
    ensures forall r :: 3 < r <= 4 + |v| ==> !At(s, r, "href=\"", true)
  {
    var lit := "href=\"";
    assert At(s, 0, "<a", true) by {
      forall k | 0 <= k < 2 ensures Same(s[k], "<a"[k], true) { assert s[k] == "<a href=\""[k]; }
    }
    assert At(s, 3, lit, true) by {
      forall k | 0 <= k < 6 ensures Same(s[3 + k], lit[k], true) { assert s[3 + k] == "<a href=\""[3 + k]; }
    }
    forall q | 2 <= q < 10 + |v| ensures s[q] != '>' {
      if q < 9 { assert s[q] == "<a href=\""[q]; }
      else if q < 9 + |v| { assert s[9 + (q - 9)] == v[q - 9]; QuotedChar(v, q - 9); }
    }
    NextFirst(s, 2, '>', 10 + |v|);
    forall r | 3 < r <= 4 + |v| ensures !At(s, r, lit, true) {
      if r < 4 + |v| {
        assert s[9 + (r - 4)] == v[r - 4];
        QuotedChar(v, r - 4);
        assert !Same(s[r + 5], lit[5], true);
      } else if v == [] {
        assert s[r + 4] == "<a href=\""[8];
        assert !Same(s[r + 4], lit[4], true);
      } else {
        assert s[9 + (|v| - 1)] == v[|v| - 1];
        QuotedChar(v, |v| - 1);
        assert !Same(s[r + 4], lit[4], true);
      }
    }
  }

  /** The `href` value runs to its closing `"`, which the end of the opening tag follows. */
  lemma LinkValue(s: string, v: string, x: string)
    requires LinkShape(s, v, x) && Quoted(v)
    ensures Next(s, 9, '"') == Some(9 + |v|)
    ensures Next(s, 10 + |v|, '>') == Some(10 + |v|)
    ensures s[9..9 + |v|] == v
  {
    forall q | 9 <= q < 9 + |v| ensures s[q] != '"' {
      assert s[9 + (q - 9)] == v[q - 9];
      QuotedChar(v, q - 9);
    }
    NextFirst(s, 9, '"', 9 + |v|);
    NextFirst(s, 10 + |v|, '>', 10 + |v|);
    assert s[9..9 + |v|] == v by {
      forall k | 0 <= k < |v| ensures s[9..9 + |v|][k] == v[k] { assert s[9 + k] == v[k]; }
    }
  }

  /** The link text runs from the end of the opening tag to `</a>`. */
  lemma LinkText(s: string, v: string, x: string)
    requires LinkShape(s, v, x) && Text(x)
    ensures Lazy(s, 11 + |v|, "</a>") == Some(11 + |v| + |x|)
    ensures s[11 + |v|..11 + |v| + |x|] == x
  {
    var a := 11 + |v|;
    PlainCopy(s, a, x, 0);
    assert At(s, a + |x|, "</a>", true) by {
      forall k | 0 <= k < 4 ensures Same(s[a + |x| + k], "</a>"[k], true) { }
    }
    LazyPlain(s, a, "</a>", a + |x|);
    assert s[a..a + |x|] == x by {
      forall k | 0 <= k < |x| ensures s[a..a + |x|][k] == x[k] { assert s[a + k] == x[k]; }
    }
  }

  /** A text laid out as `<a href="v">x</a>` is matched whole by the link pattern. */
  lemma LinkAt(s: string, v: string, x: string)
    requires LinkShape(s, v, x) && Quoted(v) && Text(x)
    ensures Match(Link, s, 0) == Some(Hit(|s|, "[" + x + "](" + v + ")"))
  {
    LinkHref(s, v, x);
    LinkValue(s, v, x);
    LinkText(s, v, x);
    FinishHref(s, 9, 9 + |v|, 10 + |v|, 11 + |v| + |x|, v, x);
    LinkBacktracked(s, 0, 3, 10 + |v|, Hit(|s|, "[" + x + "](" + v + ")"));
  }

  /** The link pattern matches `<a href="v">x</a>` whole and renders it `[x](v)`. */
  lemma LinkMatched(v: string, x: string)
    requires Quoted(v) && Text(x)
    ensures var s := LinkElement(v, x);
      Match(Link, s, 0) == Some(Hit(|s|, "[" + x + "](" + v + ")"))
  {
    LinkShaped(v, x);
    LinkAt(LinkElement(v, x), v, x);
  }

  /** The link pass turns `<a href="v">x</a>` into `[x](v)`. */
  lemma LinkRendered(v: string, x: string)
    requires Quoted(v) && Text(x)
    ensures ReplaceAll(Link, LinkElement(v, x)) == "[" + x + "](" + v + ")"
  {
    var s := LinkElement(v, x);
    LinkMatched(v, x);
    HitAtOf(Link, s, 0);
    ReplaceHit(Of(Link), s, 0);
  }

  /** `<img src="v" alt="x">`. */
  function ImageElement(v: string, x: string): string {
    "<img src=\"" + v + "\" alt=\"" + x + "\">"
  }

  /** Where the pieces of `<img src="v" alt="x">` sit in `s`. */
  predicate ImageShape(s: string, v: string, x: string) {
    && |s| == 19 + |v| + |x|
    && (forall k :: 0 <= k < 10 ==> s[k] == "<img src=\""[k])
    && (forall k :: 0 <= k < |v| ==> s[10 + k] == v[k])
    && (forall k :: 0 <= k < 7 ==> s[10 + |v| + k] == "\" alt=\""[k])
    && (forall k :: 0 <= k < |x| ==> s[17 + |v| + k] == x[k])
    && s[17 + |v| + |x|] == '"' && s[18 + |v| + |x|] == '>'
  }

  lemma ImageShaped(v: string, x: string)
    ensures ImageShape(ImageElement(v, x), v, x)
  {
    var s := ImageElement(v, x);
    var o := "<img src=\"" + v + "\" alt=\"";
    assert forall k :: 0 <= k < |o| ==> s[k] == o[k];
    assert forall k :: 0 <= k < |v| ==> o[10 + k] == v[k];
    assert forall k :: 0 <= k < 7 ==> o[10 + |v| + k] == "\" alt=\""[k];
    assert forall k :: 0 <= k < |x| ==> s[17 + |v| + k] == x[k];
  }

  /** The image tag ends at its only `>`, and `src="` starts at 5. */
  lemma ImageHead(s: string, v: string, x: string)
    requires ImageShape(s, v, x) && Quoted(v) && Quoted(x)
    ensures At(s, 0, "<img", true) && At(s, 5, "src=\"", true)
    ensures Next(s, 4, '>') == Some(18 + |v| + |x|)
  {
    assert At(s, 0, "<img", true) by {
      forall k | 0 <= k < 4 ensures Same(s[k], "<img"[k], true) { assert s[k] == "<img src=\""[k]; }
    }
    assert At(s, 5, "src=\"", true) by {
      forall k | 0 <= k < 5 ensures Same(s[5 + k], "src=\""[k], true) { assert s[5 + k] == "<img src=\""[5 + k]; }
    }
    forall q | 4 <= q < 18 + |v| + |x| ensures s[q] != '>' {
      if q < 10 { assert s[q] == "<img src=\""[q]; }
      else if q < 10 + |v| { assert s[10 + (q - 10)] == v[q - 10]; QuotedChar(v, q - 10); }
      else if q < 17 + |v| { assert s[10 + |v| + (q - 10 - |v|)] == "\" alt=\""[q - 10 - |v|]; }
      else if q < 17 + |v| + |x| { assert s[17 + |v| + (q - 17 - |v|)] == x[q - 17 - |v|]; QuotedChar(x, q - 17 - |v|); }
    }
    NextFirst(s, 4, '>', 18 + |v| + |x|);
  }

  /** No later start of `lit`, a literal ending in `="`, can end at the closing `"` of the
      `alt` value. */
  lemma ImageAltEnd(s: string, v: string, x: string, lit: string, r: nat)
    requires ImageShape(s, v, x) && Quoted(x)
    requires |lit| == 5 && lit[3] == '=' && lit[4] == '"'
    requires 13 + |v| <= r && r + 4 <= 17 + |v| + |x|
    ensures !At(s, r, lit, true)
  {
    var p4 := r + 4;
    if p4 < 17 + |v| + |x| {
      assert s[17 + |v| + (p4 - 17 - |v|)] == x[p4 - 17 - |v|];
      QuotedChar(x, p4 - 17 - |v|);
      assert !Same(s[r + 4], lit[4], true);
    } else if x == [] {
      assert s[10 + |v| + 6] == "\" alt=\""[6];
      assert !Same(s[r + 3], lit[3], true);
    } else {
      assert s[17 + |v| + (|x| - 1)] == x[|x| - 1];
      QuotedChar(x, |x| - 1);
      assert !Same(s[r + 3], lit[3], true);
    }
  }

  /** The greedy `[^>]*` before `src="` gives back to position 5 and no further. */
  lemma ImageSrcLatest(s: string, v: string, x: string)
    requires ImageShape(s, v, x) && Quoted(v) && Quoted(x)
    ensures forall r :: 5 < r <= 13 + |v| + |x| ==> !At(s, r, "src=\"", true)
  {
    var lit := "src=\"";
    forall r | 5 < r <= 13 + |v| + |x| ensures !At(s, r, lit, true) {
      var p4 := r + 4;
      if p4 < 10 + |v| {
        assert s[10 + (p4 - 10)] == v[p4 - 10];
        QuotedChar(v, p4 - 10);
        assert !Same(s[r + 4], lit[4], true);
      } else if p4 == 10 + |v| {
        if v == [] {
          assert s[r + 3] == "<img src=\""[9];
        } else {
          assert s[10 + (|v| - 1)] == v[|v| - 1];
          QuotedChar(v, |v| - 1);
        }
        assert !Same(s[r + 3], lit[3], true);
      } else if p4 < 16 + |v| {
        assert s[10 + |v| + (p4 - 10 - |v|)] == "\" alt=\""[p4 - 10 - |v|];
        assert !Same(s[r + 4], lit[4], true);
      } else if p4 == 16 + |v| {
        assert s[10 + |v| + 2] == "\" alt=\""[2];
        assert !Same(s[r + 0], lit[0], true);
      } else {
        ImageAltEnd(s, v, x, lit, r);
      }
    }
  }

  /** The `src` value runs to its `"`, after which the tag ends at its `>`. */
  lemma ImageSrcValue(s: string, v: string, x: string)
    requires ImageShape(s, v, x) && Quoted(v) && Quoted(x)
    ensures Next(s, 10, '"') == Some(10 + |v|)
    ensures Next(s, 11 + |v|, '>') == Some(18 + |v| + |x|)
    ensures s[10..10 + |v|] == v
  {
    forall q | 10 <= q < 10 + |v| ensures s[q] != '"' {
      assert s[10 + (q - 10)] == v[q - 10];
      QuotedChar(v, q - 10);
    }
    assert s[10 + |v| + 0] == "\" alt=\""[0];
    NextFirst(s, 10, '"', 10 + |v|);
    forall q | 11 + |v| <= q < 18 + |v| + |x| ensures s[q] != '>' {
      if q < 17 + |v| { assert s[10 + |v| + (q - 10 - |v|)] == "\" alt=\""[q - 10 - |v|]; }
      else if q < 17 + |v| + |x| { assert s[17 + |v| + (q - 17 - |v|)] == x[q - 17 - |v|]; QuotedChar(x, q - 17 - |v|); }
    }
    NextFirst(s, 11 + |v|, '>', 18 + |v| + |x|);
    assert s[10..10 + |v|] == v by {
      forall k | 0 <= k < |v| ensures s[10..10 + |v|][k] == v[k] { assert s[10 + k] == v[k]; }
    }
  }

  /** `alt="` starts at `12 + |v|` and nowhere later; its value runs to the final `"`. */
  lemma ImageAltValue(s: string, v: string, x: string)
    requires ImageShape(s, v, x) && Quoted(x)
    ensures At(s, 12 + |v|, "alt=\"", true)
    ensures forall r :: 12 + |v| < r <= 13 + |v| + |x| ==> !At(s, r, "alt=\"", true)
    ensures Next(s, 17 + |v|, '"') == Some(17 + |v| + |x|)
    ensures Next(s, 18 + |v| + |x|, '>') == Some(18 + |v| + |x|)
    ensures s[17 + |v|..17 + |v| + |x|] == x
  {
    assert At(s, 12 + |v|, "alt=\"", true) by {
      forall k | 0 <= k < 5 ensures Same(s[12 + |v| + k], "alt=\""[k], true) {
        assert s[10 + |v| + (2 + k)] == "\" alt=\""[2 + k];
      }
    }
    forall r | 12 + |v| < r <= 13 + |v| + |x| ensures !At(s, r, "alt=\"", true) {
      ImageAltEnd(s, v, x, "alt=\"", r);
    }
    forall q | 17 + |v| <= q < 17 + |v| + |x| ensures s[q] != '"' {
      assert s[17 + |v| + (q - 17 - |v|)] == x[q - 17 - |v|];
      QuotedChar(x, q - 17 - |v|);
    }
    NextFirst(s, 17 + |v|, '"', 17 + |v| + |x|);
    NextFirst(s, 18 + |v| + |x|, '>', 18 + |v| + |x|);
    assert s[17 + |v|..17 + |v| + |x|] == x by {
      forall k | 0 <= k < |x| ensures s[17 + |v|..17 + |v| + |x|][k] == x[k] { assert s[17 + |v| + k] == x[k]; }
    }
  }

  /** From the `src` value on, the image pattern matches to the end and renders `![x](v)`. */
  lemma ImageTail(s: string, v: string, x: string)
    requires ImageShape(s, v, x) && Quoted(v) && Quoted(x)
    ensures Finish(s, 10, AfterSrc(true)) == Some(Hit(|s|, "![" + x + "](" + v + ")"))
  {
    ImageSrcValue(s, v, x);
    ImageAltValue(s, v, x);
    SrcAltFinish(s, 10, 10 + |v|, 12 + |v|, 17 + |v| + |x|, 18 + |v| + |x|, v, x);
  }

  /** A text laid out as `<img src="v" alt="x">` is matched whole by the image pattern. */
  lemma ImageAt(s: string, v: string, x: string)
    requires ImageShape(s, v, x) && Quoted(v) && Quoted(x)
    ensures Match(Image(true), s, 0) == Some(Hit(|s|, "![" + x + "](" + v + ")"))
  {
    ImageHead(s, v, x);
    ImageSrcLatest(s, v, x);
    ImageTail(s, v, x);
    ImageBacktracked(s, 0, 18 + |v| + |x|, Hit(|s|, "![" + x + "](" + v + ")"));
  }

  /** The image pattern matches `<img src="v" alt="x">` whole and renders it `![x](v)`. */
  lemma ImageMatched(v: string, x: string)
    requires Quoted(v) && Quoted(x)
    ensures var s := ImageElement(v, x);
      Match(Image(true), s, 0) == Some(Hit(|s|, "![" + x + "](" + v + ")"))
  {
    ImageShaped(v, x);
    ImageAt(ImageElement(v, x), v, x);
  }

  /** The first image pass turns `<img src="v" alt="x">` into `![x](v)`. */
  lemma ImageRendered(v: string, x: string)
    requires Quoted(v) && Quoted(x)
    ensures ReplaceAll(Image(true), ImageElement(v, x)) == "![" + x + "](" + v + ")"
  {
    var s := ImageElement(v, x);
    ImageMatched(v, x);
    HitAtOf(Image(true), s, 0);
    ReplaceHit(Of(Image(true)), s, 0);
  }

  /** Tag patterns match by prefix: `<b[^>]*>` takes a `<body>` opening tag for bold, and
      `<p[^>]*>` takes a `<pre>` opening tag for a paragraph, each to the same end. */
  lemma LongerTagsTaken(s: string, p: nat)
    ensures OpenEnd(s, p, "body").Some? ==> OpenEnd(s, p, "b") == OpenEnd(s, p, "body")
    ensures OpenEnd(s, p, "pre").Some? ==> OpenEnd(s, p, "p") == OpenEnd(s, p, "pre")
  {
    assert "b" + "ody" == "body";
    assert "p" + "re" == "pre";
    if OpenEnd(s, p, "body").Some? { OpeningPrefix(s, p, "b", "ody"); }
    if OpenEnd(s, p, "pre").Some? { OpeningPrefix(s, p, "p", "re"); }
  }

  /** An ordered item loses its text: a text that the item pattern matches whole becomes
      its number followed by `. $1`, whatever the item held. */
  lemma NumberedItemLosesText(s: string, a: nat, j: nat, n: nat)
    requires Inline(s, 0, "li") == Some((a, j)) && j + 5 == |s|
    ensures Numbered(s, 0, n) == NatToString(n) + ". $1\n"
  {
    ElementHit(s, 0, "li", "", "");
    assert Numbered(s, |s|, n + 1) == [];
  }
}
