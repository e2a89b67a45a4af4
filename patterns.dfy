/** The regular expressions of the converter, each as a hand-written matcher with
    JavaScript's semantics: a match is tried at each position from the left, greedy
    quantifiers take the longest run and give back only what the rest of the pattern
    needs, `(.*?)` is lazy and stops at a line terminator, and `/i` folds ASCII case.
    `ReplaceAll` is `String.prototype.replace` with the `g` flag: leftmost,
    non-overlapping, resuming where the previous match ended. */
module Patterns {
  import opened Strings

  /** A match ending just before `end`; `text` is what the pass substitutes for it, or,
      for the two patterns that are only read (`DcTitle`, `FullPath`), the capture. */
  datatype Hit = Hit(end: nat, text: string)

  /** What follows a greedy `[^>]*` that must give back characters to reach a literal. */
  datatype Rest =
    | AfterHref            // ([^"]*)"[^>]*>(.*?)<\/a>
    | AfterSrc(alt: bool)  // ([^"]*)"[^>]*>   or   ([^"]*)"[^>]*alt="([^"]*)"[^>]*>
    | AfterAlt(src: string)

  datatype Rule =
    | Declaration(name: string, value: string)  // name\s*:\s*value[^;]*;?  (name\s*:[^;]*;? when value is "") -> ""
    | Elided(tag: string)                       // <tag[^>]*>[\s\S]*?<\/tag>    -> ""
    | Comment                                   // <!--[\s\S]*?-->             -> ""
    | Element(tag: string, before: string, after: string)  // <tag[^>]*>(.*?)<\/tag> -> before$1after
    | LineBreak                                 // <br\s*\/?>                  -> "\n"
    | Link                                      // <a[^>]*href="([^"]*)"[^>]*>(.*?)<\/a> -> [$2]($1)
    | Image(alt: bool)                          // <img[^>]*src="([^"]*)"[^>]*(alt="([^"]*)"[^>]*)?> -> ![$2]($1)
    | AnyTag                                    // <[^>]+>                     -> ""
    | Literal(pattern: string, replacement: string)  // a fixed string, case-sensitive
    | BlankLines                                // \n\s*\n\s*\n                -> "\n\n"
    | OpenTag(tag: string, style: string)       // <tag([^>]*)>                -> <tag$1style>
    | DcTitle                                   // <dc:title[^>]*>([^<]+)<\/dc:title>, capture 1
    | FullPath                                  // full-path="([^"]+\.opf)", capture 1

  /** `[^;]*;?`: through the next `;`, or to the end of the text when none follows. */
  function ToSemicolon(s: string, p: nat): (e: nat)
    requires p <= |s|
    ensures p <= e <= |s|
    ensures forall q :: p <= q < e - 1 ==> s[q] != ';'
    ensures (e > p && s[e - 1] == ';') || (e == |s| && forall q :: p <= q < |s| ==> s[q] != ';')
  {
    match Next(s, p, ';')
    case Some(i) => i + 1
    case None => |s|
  }

  /** `<tag[^>]*>` at `p`: the position just after its `>`. */
  function OpenEnd(s: string, p: nat, tag: string): (r: Option<nat>)
    ensures r.Some? ==> At(s, p, "<" + tag, true) && p + 1 + |tag| < r.value <= |s|
    ensures r.Some? ==> s[r.value - 1] == '>' && forall q :: p + 1 + |tag| <= q < r.value - 1 ==> s[q] != '>'
    ensures r.None? && At(s, p, "<" + tag, true) ==> forall q :: p + 1 + |tag| <= q < |s| ==> s[q] != '>'
  {
    if !At(s, p, "<" + tag, true) then None
    else match Next(s, p + 1 + |tag|, '>')
      case Some(g) => Some(g + 1)
      case None => None
  }

  /** `(.*?)` followed by `lit` (ASCII case folded) from `p`: the first place `lit`
      starts, provided no line terminator comes before it. */
  function Lazy(s: string, p: nat, lit: string): (r: Option<nat>)
    requires p <= |s|
    decreases |s| - p
    ensures r.Some? ==> p <= r.value && At(s, r.value, lit, true)
    ensures r.Some? ==> forall q :: p <= q < r.value ==> !IsLineTerminator(s[q])
    ensures r.Some? ==> forall q :: p <= q < r.value ==> !At(s, q, lit, true)
  {
    if At(s, p, lit, true) then Some(p)
    else if p == |s| || IsLineTerminator(s[p]) then None
    else Lazy(s, p + 1, lit)
  }

  /** An occurrence of `lit` reached before any line terminator or earlier occurrence is
      where `(.*?)` stops. */
  lemma {:induction false} LazyFirst(s: string, p: nat, lit: string, j: nat)
    requires p <= j && At(s, j, lit, true)
    requires forall q :: p <= q < j ==> !IsLineTerminator(s[q])
    requires forall q :: p <= q < j ==> !At(s, q, lit, true)
    ensures Lazy(s, p, lit) == Some(j)
    decreases j - p
  {
    if p < j {
      assert !At(s, p, lit, true) && !IsLineTerminator(s[p]);
      LazyFirst(s, p + 1, lit, j);
    } else {
      assert At(s, p, lit, true);
    }
  }

  function DeclarationAt(s: string, p: nat, name: string, value: string): (r: Option<Hit>)
    ensures r.Some? ==> p < r.value.end <= |s| && r.value.text == []
    ensures r.Some? ==> At(s, p, name, true) && |name| > 0
  {
    if |name| == 0 || !At(s, p, name, true) then None
    else
      var k := SkipSpace(s, p + |name|);
      if k == |s| || s[k] != ':' then None
      else if value == [] then Some(Hit(ToSemicolon(s, k + 1), []))
      else
        var v := SkipSpace(s, k + 1);
        if At(s, v, value, true) then Some(Hit(ToSemicolon(s, v + |value|), [])) else None
  }

  /** `<tag[^>]*>[\s\S]*?<\/tag>` at `p`: the content's bounds. */
  function Enclosed(s: string, p: nat, tag: string): (r: Option<(nat, nat)>)
    ensures r.Some? ==> p < r.value.0 <= r.value.1 && r.value.1 + |tag| + 3 <= |s|
    ensures r.Some? ==> OpenEnd(s, p, tag) == Some(r.value.0) && At(s, r.value.1, "</" + tag + ">", true)
    ensures r.Some? ==> forall q :: r.value.0 <= q < r.value.1 ==> !At(s, q, "</" + tag + ">", true)
  {
    match OpenEnd(s, p, tag)
    case None => None
    case Some(a) =>
      match Find(s, a, "</" + tag + ">", true)
      case None => None
      case Some(j) => Some((a, j))
  }

  /** `<tag[^>]*>(.*?)<\/tag>` at `p`: the capture's bounds. */
  function Inline(s: string, p: nat, tag: string): (r: Option<(nat, nat)>)
    ensures r.Some? ==> p < r.value.0 <= r.value.1 && r.value.1 + |tag| + 3 <= |s|
    ensures r.Some? ==> OpenEnd(s, p, tag) == Some(r.value.0) && At(s, r.value.1, "</" + tag + ">", true)
    ensures r.Some? ==> forall q :: r.value.0 <= q < r.value.1 ==> !IsLineTerminator(s[q])
  {
    match OpenEnd(s, p, tag)
    case None => None
    case Some(a) =>
      match Lazy(s, a, "</" + tag + ">")
      case None => None
      case Some(j) => Some((a, j))
  }

  /** A greedy `[^>]*` running from `lo` and then `lit`: the latest start `q <= hi` of
      `lit` after which the rest of the pattern matches, tried from `hi` downwards. */
  function Latest(s: string, lo: nat, hi: nat, lit: string, rest: Rest): (r: Option<Hit>)
    requires lo <= hi
    decreases RestRank(rest), 1, hi - lo
    ensures r.Some? ==> lo + |lit| < r.value.end <= |s|
  {
    if At(s, hi, lit, true) && Finish(s, hi + |lit|, rest).Some? then Finish(s, hi + |lit|, rest)
    else if hi == lo then None
    else Latest(s, lo, hi - 1, lit, rest)
  }

  /** Starts above `q` where `lit` does not occur are passed over by the backtracking. */
  lemma {:induction false} LatestSkip(s: string, lo: nat, q: nat, hi: nat, lit: string, rest: Rest)
    requires lo <= q <= hi
    requires forall r :: q < r <= hi ==> !At(s, r, lit, true)
    ensures Latest(s, lo, hi, lit, rest) == Latest(s, lo, q, lit, rest)
    decreases hi - q
  {
    if q < hi {
      LatestSkip(s, lo, q, hi - 1, lit, rest);
    }
  }

  /** A start of `lit` after which the rest matches is where the backtracking stops. */
  lemma LatestHere(s: string, lo: nat, q: nat, lit: string, rest: Rest, a: nat, h: Hit)
    requires lo <= q && At(s, q, lit, true) && a == q + |lit| && Finish(s, a, rest) == Some(h)
    ensures Latest(s, lo, q, lit, rest) == Some(h)
  {
  }

  /** Backtracking from `hi` stops at `q`, the latest start of `lit` after which the rest
      of the pattern matches. */
  lemma LatestAt(s: string, lo: nat, q: nat, hi: nat, lit: string, rest: Rest, a: nat, h: Hit)
    requires lo <= q <= hi
    requires forall r :: q < r <= hi ==> !At(s, r, lit, true)
    requires At(s, q, lit, true) && a == q + |lit| && Finish(s, a, rest) == Some(h)
    ensures Latest(s, lo, hi, lit, rest) == Some(h)
  {
    LatestSkip(s, lo, q, hi, lit, rest);
    LatestHere(s, lo, q, lit, rest, a, h);
  }

  /** A link's tail: the `href` value up to `"`, the tag's end at `g`, the text up to `</a>`. */
  lemma FinishHref(s: string, a: nat, e: nat, g: nat, j: nat, href: string, text: string)
    requires Next(s, a, '"') == Some(e) && s[a..e] == href && Next(s, e + 1, '>') == Some(g)
    requires Lazy(s, g + 1, "</a>") == Some(j) && s[g + 1..j] == text
    ensures Finish(s, a, AfterHref) == Some(Hit(j + 4, "[" + text + "](" + href + ")"))
  {
  }

  /** The link pattern gives back from the tag's end at `g` in search of `href="`. */
  lemma LinkStep(s: string, p: nat, g: nat, h: Hit)
    requires At(s, p, "<a", true) && Next(s, p + 2, '>') == Some(g) && p + 8 <= g
    requires Latest(s, p + 2, g - 6, "href=\"", AfterHref) == Some(h)
    ensures Backtracked(s, p, "<a", "href=\"", AfterHref) == Some(h)
  {
  }

  /** The image pattern gives back from the tag's end at `g` in search of `src="`. */
  lemma ImageStep(s: string, p: nat, g: nat, h: Hit)
    requires At(s, p, "<img", true) && Next(s, p + 4, '>') == Some(g) && p + 9 <= g
    requires Latest(s, p + 4, g - 5, "src=\"", AfterSrc(true)) == Some(h)
    ensures Backtracked(s, p, "<img", "src=\"", AfterSrc(true)) == Some(h)
  {
  }

  /** `<a` at `p`, its tag ending at `g`, with `href="` last at `q` and the rest of the
      pattern matching from `q + 6`: the link pattern gives that match. */
  lemma LinkBacktracked(s: string, p: nat, q: nat, g: nat, h: Hit)
    requires At(s, p, "<a", true) && Next(s, p + 2, '>') == Some(g)
    requires p + 2 <= q && q + 6 <= g
    requires forall r :: q < r <= g - 6 ==> !At(s, r, "href=\"", true)
    requires At(s, q, "href=\"", true) && Finish(s, q + 6, AfterHref) == Some(h)
    ensures Backtracked(s, p, "<a", "href=\"", AfterHref) == Some(h)
  {
    LatestAt(s, p + 2, q, g - 6, "href=\"", AfterHref, q + 6, h);
    LinkStep(s, p, g, h);
  }

  /** An image's `alt` tail: the value up to `"`, then the tag's end at `g`. */
  lemma FinishAlt(s: string, a: nat, e: nat, g: nat, alt: string, src: string)
    requires Next(s, a, '"') == Some(e) && s[a..e] == alt && Next(s, e + 1, '>') == Some(g)
    ensures Finish(s, a, AfterAlt(src)) == Some(Hit(g + 1, "![" + alt + "](" + src + ")"))
  {
  }

  /** Backtracking to `alt="` stops at `q`, and the `alt` value ends the image tag at `g`. */
  lemma AltLatest(s: string, lo: nat, q: nat, hi: nat, e: nat, g: nat, alt: string, src: string)
    requires lo <= q <= hi
    requires forall r :: q < r <= hi ==> !At(s, r, "alt=\"", true)
    requires At(s, q, "alt=\"", true)
    requires Next(s, q + 5, '"') == Some(e) && s[q + 5..e] == alt && Next(s, e + 1, '>') == Some(g)
    ensures Latest(s, lo, hi, "alt=\"", AfterAlt(src)) == Some(Hit(g + 1, "![" + alt + "](" + src + ")"))
  {
    FinishAlt(s, q + 5, e, g, alt, src);
    LatestAt(s, lo, q, hi, "alt=\"", AfterAlt(src), q + 5, Hit(g + 1, "![" + alt + "](" + src + ")"));
  }

  /** An image's tail from its `src` value: backtracking to `alt="` at `q`, both values
      ending the tag at `g`. */
  lemma SrcAltFinish(s: string, a: nat, e: nat, q: nat, e2: nat, g: nat, src: string, alt: string)
    requires Next(s, a, '"') == Some(e) && s[a..e] == src && Next(s, e + 1, '>') == Some(g)
    requires e + 1 <= q && q + 5 <= g
    requires forall r :: q < r <= g - 5 ==> !At(s, r, "alt=\"", true)
    requires At(s, q, "alt=\"", true)
    requires Next(s, q + 5, '"') == Some(e2) && s[q + 5..e2] == alt && Next(s, e2 + 1, '>') == Some(g)
    ensures Finish(s, a, AfterSrc(true)) == Some(Hit(g + 1, "![" + alt + "](" + src + ")"))
  {
    AltLatest(s, e + 1, q, g - 5, e2, g, alt, src);
  }

  /** `<img` at `p`, its tag ending at `g`, with `src="` last at `p + 5` and the rest of the
      pattern matching from `p + 10`: the image pattern gives that match. */
  lemma ImageBacktracked(s: string, p: nat, g: nat, h: Hit)
    requires At(s, p, "<img", true) && Next(s, p + 4, '>') == Some(g) && p + 10 <= g
    requires forall r :: p + 5 < r <= g - 5 ==> !At(s, r, "src=\"", true)
    requires At(s, p + 5, "src=\"", true) && Finish(s, p + 10, AfterSrc(true)) == Some(h)
    ensures Backtracked(s, p, "<img", "src=\"", AfterSrc(true)) == Some(h)
  {
    LatestAt(s, p + 4, p + 5, g - 5, "src=\"", AfterSrc(true), p + 10, h);
    ImageStep(s, p, g, h);
  }

  function RestRank(rest: Rest): nat {
    match rest
    case AfterSrc(alt) => if alt then 1 else 0
    case _ => 0
  }

  /** The part of a link or image pattern after its backtracked literal, from `a`. */
  function Finish(s: string, a: nat, rest: Rest): (r: Option<Hit>)
    decreases RestRank(rest), 0, 0
    ensures r.Some? ==> a < r.value.end <= |s|
  {
    match Next(s, a, '"')
    case None => None
    case Some(e) =>
      match Next(s, e + 1, '>')
      case None => None
      case Some(g) =>
        match rest
        case AfterHref =>
          (match Lazy(s, g + 1, "</a>")
           case None => None
           case Some(j) => Some(Hit(j + 4, "[" + s[g + 1..j] + "](" + s[a..e] + ")")))
        case AfterSrc(alt) =>
          if !alt then Some(Hit(g + 1, "![](" + s[a..e] + ")"))
          else if g < e + 1 + 5 then None
          else Latest(s, e + 1, g - 5, "alt=\"", AfterAlt(s[a..e]))
        case AfterAlt(src) => Some(Hit(g + 1, "![" + s[a..e] + "](" + src + ")"))
  }

  /** `<lead` then a greedy `[^>]*` giving back to reach `lit`, then `rest`. */
  function Backtracked(s: string, p: nat, lead: string, lit: string, rest: Rest): (r: Option<Hit>)
    ensures r.Some? ==> p < r.value.end <= |s|
  {
    if !At(s, p, lead, true) then None
    else match Next(s, p + |lead|, '>')
      case None => None
      case Some(g) => if g < p + |lead| + |lit| then None else Latest(s, p + |lead|, g - |lit|, lit, rest)
  }

  function LineBreakAt(s: string, p: nat): (r: Option<Hit>)
    ensures r.Some? ==> p < r.value.end <= |s|
  {
    if !At(s, p, "<br", true) then None
    else
      var k := SkipSpace(s, p + 3);
      if k < |s| && s[k] == '>' then Some(Hit(k + 1, "\n"))
      else if k + 1 < |s| && s[k] == '/' && s[k + 1] == '>' then Some(Hit(k + 2, "\n"))
      else None
  }

  /** `<[^>]+>` at `p`. */
  function AnyTagAt(s: string, p: nat): (r: Option<Hit>)
    ensures r.Some? ==> p < r.value.end <= |s| && r.value.text == []
    ensures r.Some? <==> p < |s| && s[p] == '<'
                         && (exists g :: p + 1 < g < |s| && s[g] == '>' && forall q :: p + 1 <= q < g ==> s[q] != '>')
  {
    if p >= |s| || s[p] != '<' then None
    else match Next(s, p + 1, '>')
      case Some(g) => if g > p + 1 then Some(Hit(g + 1, [])) else None
      case None => None
  }

  /** Number of line feeds in `s[lo..hi]`. */
  function Newlines(s: string, lo: nat, hi: nat): nat
    requires lo <= hi <= |s|
    decreases hi - lo
  {
    if lo == hi then 0 else (if s[lo] == '\n' then 1 else 0) + Newlines(s, lo + 1, hi)
  }

  /** The last line feed in `s[lo..hi]`, if any. */
  function LastNewline(s: string, lo: nat, hi: nat): (r: Option<nat>)
    requires lo <= hi <= |s|
    decreases hi - lo
    ensures r.Some? ==> lo <= r.value < hi && s[r.value] == '\n'
    ensures r.Some? ==> Newlines(s, r.value + 1, hi) == 0
    ensures r.None? <==> Newlines(s, lo, hi) == 0
  {
    if lo == hi then None
    else if s[hi - 1] == '\n' then (NewlinesSplit(s, lo, hi - 1, hi); Some(hi - 1))
    else
      NewlinesSplit(s, lo, hi - 1, hi);
      var r := LastNewline(s, lo, hi - 1);
      if r.Some? then NewlinesSplit(s, r.value + 1, hi - 1, hi); r else r
  }

  lemma {:induction false} NewlinesSplit(s: string, lo: nat, mid: nat, hi: nat)
    requires lo <= mid <= hi <= |s|
    ensures Newlines(s, lo, hi) == Newlines(s, lo, mid) + Newlines(s, mid, hi)
    decreases mid - lo
  {
    if lo < mid { NewlinesSplit(s, lo + 1, mid, hi); }
  }

  /** `\n\s*\n\s*\n` at `p`: both `\s*` are greedy, so the match runs from the line feed
      at `p` to the last line feed of the whitespace run, once that run holds three. */
  function BlankLinesAt(s: string, p: nat): (r: Option<Hit>)
    ensures r.Some? ==> p < r.value.end <= |s| && r.value.text == "\n\n"
  {
    if p >= |s| || s[p] != '\n' then None
    else
      var w := SkipSpace(s, p);
      if Newlines(s, p, w) < 3 then None
      else match LastNewline(s, p, w)
        case Some(l) => Some(Hit(l + 1, "\n\n"))
        case None => None
  }

  function OpenTagAt(s: string, p: nat, tag: string, style: string): (r: Option<Hit>)
    ensures r.Some? ==> p < r.value.end <= |s|
    ensures r.Some? ==> OpenEnd(s, p, tag) == Some(r.value.end)
    ensures r.Some? ==> r.value.text == "<" + tag + s[p + 1 + |tag|..r.value.end - 1] + style + ">"
  {
    match OpenEnd(s, p, tag)
    case None => None
    case Some(e) => Some(Hit(e, "<" + tag + s[p + 1 + |tag|..e - 1] + style + ">"))
  }

  function DcTitleAt(s: string, p: nat): (r: Option<Hit>)
    ensures r.Some? ==> p < r.value.end <= |s|
    ensures r.Some? ==> r.value.text != [] && forall i :: 0 <= i < |r.value.text| ==> r.value.text[i] != '<'
  {
    match OpenEnd(s, p, "dc:title")
    case None => None
    case Some(a) =>
      match Next(s, a, '<')
      case None => None
      case Some(j) => if j > a && At(s, j, "</dc:title>", true) then Some(Hit(j + 11, s[a..j])) else None
  }

  function FullPathAt(s: string, p: nat): (r: Option<Hit>)
    ensures r.Some? ==> p < r.value.end <= |s|
    ensures r.Some? ==> EndsWithCi(r.value.text, ".opf") && |r.value.text| >= 5
    ensures r.Some? ==> forall i :: 0 <= i < |r.value.text| ==> r.value.text[i] != '"'
  {
    if !At(s, p, "full-path=\"", true) then None
    else match Next(s, p + 11, '"')
      case None => None
      case Some(j) =>
        if j >= p + 11 + 5 && At(s, j - 4, ".opf", true) then
          var t := s[p + 11..j];
          Some(Hit(j + 1, t))
        else None
  }

  /** A `dc:title` element with attributes `attrs` and text `x`. */
  function DcTitleElement(attrs: string, x: string): string {
    "<dc:title" + attrs + ">" + x + "</dc:title>"
  }

  /** A text `e` placed at `|u|`: its characters, read back at their new positions. */
  lemma Placed(u: string, e: string, w: string)
    ensures forall k :: 0 <= k < |e| ==> (u + e + w)[|u| + k] == e[k]
  {
  }

  /** The opening tag of an element placed at `|u|` ends where its text starts. */
  lemma DcTitleOpening(u: string, attrs: string, x: string, w: string)
    requires forall i :: 0 <= i < |attrs| ==> attrs[i] != '>'
    ensures OpenEnd(u + DcTitleElement(attrs, x) + w, |u|, "dc:title") == Some(|u| + 10 + |attrs|)
  {
    var e := DcTitleElement(attrs, x);
    var s := u + e + w;
    var p := |u|;
    var a := 10 + |attrs|;
    Placed(u, e, w);
    assert At(s, p, "<dc:title", true) by {
      forall k | 0 <= k < 9 ensures Same(s[p + k], "<dc:title"[k], true) { assert e[k] == "<dc:title"[k]; }
    }
    forall q | p + 9 <= q < p + a - 1 ensures s[q] != '>' {
      assert s[q] == e[q - p] == attrs[q - p - 9];
    }
    assert s[p + a - 1] == e[a - 1] == '>';
    NextFirst(s, p + 9, '>', p + a - 1);
  }

  /** The text of an element placed at `|u|` runs to the `<` of its closing tag. */
  lemma DcTitleText(u: string, attrs: string, x: string, w: string)
    requires forall i :: 0 <= i < |x| ==> x[i] != '<'
    ensures |DcTitleElement(attrs, x)| == 10 + |attrs| + |x| + 11
    ensures var s := u + DcTitleElement(attrs, x) + w; var a := |u| + 10 + |attrs|;
      && Next(s, a, '<') == Some(a + |x|)
      && s[a..a + |x|] == x
  {
    var e := DcTitleElement(attrs, x);
    var s := u + e + w;
    var p := |u|;
    var a := 10 + |attrs|;
    var j := a + |x|;
    Placed(u, e, w);
    forall q | p + a <= q < p + j ensures s[q] != '<' {
      assert s[q] == e[q - p] == x[q - p - a];
    }
    assert s[p + j] == e[j] == '<';
    NextFirst(s, p + a, '<', p + j);
    assert s[p + a..p + j] == x by {
      forall q | p + a <= q < p + j ensures s[q] == x[q - p - a] { assert s[q] == e[q - p]; }
    }
  }

  /** The closing tag of an element placed at `|u|` follows its text. */
  lemma DcTitleClosing(u: string, attrs: string, x: string, w: string)
    ensures At(u + DcTitleElement(attrs, x) + w, |u| + 10 + |attrs| + |x|, "</dc:title>", true)
  {
    var e := DcTitleElement(attrs, x);
    var s := u + e + w;
    var p := |u|;
    var j := 10 + |attrs| + |x|;
    Placed(u, e, w);
    forall k | 0 <= k < 11 ensures Same(s[p + j + k], "</dc:title>"[k], true) {
      assert s[p + j + k] == e[j + k] == "</dc:title>"[k];
    }
  }

  /** The title pattern's match, read from where its pieces fall. */
  lemma DcTitleAtOf(s: string, p: nat, a: nat, j: nat)
    requires OpenEnd(s, p, "dc:title") == Some(a) && Next(s, a, '<') == Some(j)
    requires a < j && At(s, j, "</dc:title>", true)
    ensures DcTitleAt(s, p) == Some(Hit(j + 11, s[a..j]))
  {
  }

  /** The title pattern matches such an element whole and captures exactly its text, when
      the attributes hold no `>` and the text is non-empty and holds no `<`. */
  lemma DcTitleMatch(u: string, attrs: string, x: string, w: string)
    requires forall i :: 0 <= i < |attrs| ==> attrs[i] != '>'
    requires x != [] && forall i :: 0 <= i < |x| ==> x[i] != '<'
    ensures var e := DcTitleElement(attrs, x);
      DcTitleAt(u + e + w, |u|) == Some(Hit(|u| + |e|, x))
  {
    var s := u + DcTitleElement(attrs, x) + w;
    var a := |u| + 10 + |attrs|;
    DcTitleOpening(u, attrs, x, w);
    DcTitleText(u, attrs, x, w);
    DcTitleClosing(u, attrs, x, w);
    DcTitleAtOf(s, |u|, a, a + |x|);
  }

  /** A `full-path` attribute with value `v`. */
  function FullPathAttribute(v: string): string {
    "full-path=\"" + v + "\""
  }

  /** Where the container pattern's pieces fall in an attribute placed at `|u|`. */
  lemma FullPathPieces(u: string, v: string, w: string)
    requires forall i :: 0 <= i < |v| ==> v[i] != '"'
    requires |v| >= 5 && EndsWithCi(v, ".opf")
    ensures |FullPathAttribute(v)| == 12 + |v|
    ensures var s := u + FullPathAttribute(v) + w; var p := |u|; var j := |u| + 11 + |v|;
      && At(s, p, "full-path=\"", true)
      && Next(s, p + 11, '"') == Some(j)
      && At(s, j - 4, ".opf", true)
      && s[p + 11..j] == v
  {
    var e := FullPathAttribute(v);
    var s := u + e + w;
    var p := |u|;
    var j := p + 11 + |v|;
    Placed(u, e, w);
    assert At(s, p, "full-path=\"", true) by {
      forall k | 0 <= k < 11 ensures Same(s[p + k], "full-path=\""[k], true) { assert e[k] == "full-path=\""[k]; }
    }
    forall q | p + 11 <= q < j ensures s[q] != '"' {
      assert s[q] == e[q - p] == v[q - p - 11];
    }
    assert s[j] == e[j - p] == '"';
    NextFirst(s, p + 11, '"', j);
    assert At(s, j - 4, ".opf", true) by {
      forall k | 0 <= k < 4 ensures Same(s[j - 4 + k], ".opf"[k], true) {
        assert s[j - 4 + k] == e[j - 4 + k - p] == v[|v| - 4 + k];
        assert Same(v[|v| - 4 + k], ".opf"[k], true);
      }
    }
    assert s[p + 11..j] == v by {
      forall q | p + 11 <= q < j ensures s[q] == v[q - p - 11] { assert s[q] == e[q - p]; }
    }
  }

  /** The container pattern matches a `full-path` attribute whole and captures exactly its
      value, when the value holds no `"`, ends in `.opf` and has a character before it. */
  lemma FullPathMatch(u: string, v: string, w: string)
    requires forall i :: 0 <= i < |v| ==> v[i] != '"'
    requires |v| >= 5 && EndsWithCi(v, ".opf")
    ensures FullPathAt(u + FullPathAttribute(v) + w, |u|) == Some(Hit(|u| + |FullPathAttribute(v)|, v))
  {
    FullPathPieces(u, v, w);
  }

  /** The match of `rule` starting exactly at `p`, if there is one. */
  function Match(rule: Rule, s: string, p: nat): (r: Option<Hit>)
    ensures r.Some? ==> p < r.value.end <= |s|
  {
    match rule
    case Declaration(name, value) => DeclarationAt(s, p, name, value)
    case Elided(tag) =>
      (match Enclosed(s, p, tag)
       case Some(b) => Some(Hit(b.1 + |tag| + 3, []))
       case None => None)
    case Comment =>
      if !At(s, p, "<!--", false) then None
      else (match Find(s, p + 4, "-->", false)
        case Some(j) => Some(Hit(j + 3, []))
        case None => None)
    case Element(tag, before, after) =>
      (match Inline(s, p, tag)
       case Some(b) => Some(Hit(b.1 + |tag| + 3, before + s[b.0..b.1] + after))
       case None => None)
    case LineBreak => LineBreakAt(s, p)
    case Link => Backtracked(s, p, "<a", "href=\"", AfterHref)
    case Image(alt) => Backtracked(s, p, "<img", "src=\"", AfterSrc(alt))
    case AnyTag => AnyTagAt(s, p)
    case Literal(pattern, replacement) =>
      if |pattern| > 0 && At(s, p, pattern, false) then Some(Hit(p + |pattern|, replacement)) else None
    case BlankLines => BlankLinesAt(s, p)
    case OpenTag(tag, style) => OpenTagAt(s, p, tag, style)
    case DcTitle => DcTitleAt(s, p)
    case FullPath => FullPathAt(s, p)
  }

  /** A matcher as the scanner sees it: any function from a text and a position to a
      possible match there. */
  type Matcher = (string, nat) -> Option<Hit>

  function Of(rule: Rule): Matcher {
    (s: string, p: nat) => Match(rule, s, p)
  }

  /** The matcher's answer at `p`, kept only when it is a non-empty match inside `s`
      (every `Of(rule)` answers only such matches). */
  function HitAt(m: Matcher, s: string, p: nat): (r: Option<Hit>)
    ensures r.Some? ==> p < r.value.end <= |s|
  {
    match m(s, p)
    case Some(h) => if p < h.end <= |s| then Some(h) else None
    case None => None
  }

  lemma HitAtOf(rule: Rule, s: string, p: nat)
    ensures HitAt(Of(rule), s, p) == Match(rule, s, p)
  {
  }

  /** Output of the global replacement for the text from `p` on. */
  function ReplaceFrom(m: Matcher, s: string, p: nat): string
    requires p <= |s|
    decreases |s| - p
  {
    if p == |s| then []
    else match HitAt(m, s, p)
      case Some(h) => h.text + ReplaceFrom(m, s, h.end)
      case None => [s[p]] + ReplaceFrom(m, s, p + 1)
  }

  /** `s.replace(/rule/g, ...)`. */
  function ReplaceAll(rule: Rule, s: string): string {
    ReplaceFrom(Of(rule), s, 0)
  }

  /** The matcher finds nothing in `s[lo..hi]`. */
  predicate Clear(m: Matcher, s: string, lo: nat, hi: nat) {
    forall q :: lo <= q < hi ==> HitAt(m, s, q).None?
  }

  /** The rule matches nowhere in `s`. */
  predicate NoMatch(rule: Rule, s: string) {
    forall p :: 0 <= p < |s| ==> Match(rule, s, p).None?
  }

  /** The leftmost match at or after `p`: what a regular expression without `g` finds. */
  function FirstHit(m: Matcher, s: string, p: nat): (r: Option<(nat, Hit)>)
    requires p <= |s|
    decreases |s| - p
    ensures r.Some? ==> p <= r.value.0 < |s| && HitAt(m, s, r.value.0) == Some(r.value.1)
    ensures r.Some? ==> Clear(m, s, p, r.value.0)
    ensures r.None? ==> Clear(m, s, p, |s|)
  {
    if p == |s| then None
    else match HitAt(m, s, p)
      case Some(h) => Some((p, h))
      case None => FirstHit(m, s, p + 1)
  }

  /** `s.replace(/rule/, ...)`: only the leftmost match is replaced. */
  function ReplaceFirst(rule: Rule, s: string): string {
    match FirstHit(Of(rule), s, 0)
    case None => s
    case Some(m) => s[..m.0] + m.1.text + s[m.1.end..]
  }

  /** Where nothing matches, the scanner copies one character and moves on. */
  lemma ReplaceStep(m: Matcher, s: string, p: nat)
    requires p < |s| && HitAt(m, s, p).None?
    ensures ReplaceFrom(m, s, p) == [s[p]] + ReplaceFrom(m, s, p + 1)
  {
  }

  /** Where the matcher answers, the scanner substitutes its text and resumes after it. */
  lemma ReplaceHit(m: Matcher, s: string, p: nat)
    requires p < |s| && HitAt(m, s, p).Some?
    ensures ReplaceFrom(m, s, p) == HitAt(m, s, p).value.text + ReplaceFrom(m, s, HitAt(m, s, p).value.end)
  {
  }

  lemma SliceCons(s: string, p: nat, w: nat, r: string)
    requires p < w <= |s|
    ensures [s[p]] + (s[p + 1..w] + r) == s[p..w] + r
  {
    assert s[p..w] == [s[p]] + s[p + 1..w];
  }

  /** Text where nothing matches is copied unchanged. */
  lemma {:induction false} ReplaceSkips(m: Matcher, s: string, p: nat, w: nat)
    requires p <= w <= |s|
    requires Clear(m, s, p, w)
    ensures ReplaceFrom(m, s, p) == s[p..w] + ReplaceFrom(m, s, w)
    decreases w - p
  {
    if p < w {
      ReplaceStep(m, s, p);
      ReplaceSkips(m, s, p + 1, w);
      SliceCons(s, p, w, ReplaceFrom(m, s, w));
    } else {
      assert s[p..w] == [];
    }
  }

  /** A text the rule does not match is left unchanged by the global replacement. */
  lemma ReplaceNoMatch(rule: Rule, s: string)
    requires NoMatch(rule, s)
    ensures ReplaceAll(rule, s) == s
  {
    forall q | 0 <= q < |s| ensures HitAt(Of(rule), s, q).None? {
      HitAtOf(rule, s, q);
    }
    ReplaceSkips(Of(rule), s, 0, |s|);
  }

  /** Every `k` in `s` replaced by `v`. */
  function Swap(s: string, k: char, v: char): (r: string)
    ensures |r| == |s|
  {
    seq(|s|, i requires 0 <= i < |s| => if s[i] == k then v else s[i])
  }

  /** Replacing a one-character pattern globally maps each character independently. */
  lemma {:induction false} ReplaceCharFrom(s: string, k: char, v: char, p: nat)
    requires p <= |s|
    ensures ReplaceFrom(Of(Literal([k], [v])), s, p) == Swap(s[p..], k, v)
    decreases |s| - p
  {
    var m := Of(Literal([k], [v]));
    if p < |s| {
      CharHit(s, k, v, p);
      if s[p] == k { ReplaceHit(m, s, p); } else { ReplaceStep(m, s, p); }
      ReplaceCharFrom(s, k, v, p + 1);
      SwapCons(s, k, v, p);
    } else {
      assert Swap(s[p..], k, v) == [];
    }
  }

  /** A one-character pattern matches where its character stands. */
  lemma CharHit(s: string, k: char, v: char, p: nat)
    requires p < |s|
    ensures HitAt(Of(Literal([k], [v])), s, p) == if s[p] == k then Some(Hit(p + 1, [v])) else None
  {
    LiteralHit(s, [k], [v], p);
    assert At(s, p, [k], false) <==> Same(s[p + 0], [k][0], false);
  }

  lemma SwapCons(s: string, k: char, v: char, p: nat)
    requires p < |s|
    ensures Swap(s[p..], k, v) == (if s[p] == k then [v] else [s[p]]) + Swap(s[p + 1..], k, v)
  {
  }

  /** A literal pattern matches exactly where it occurs. */
  lemma LiteralHit(s: string, pattern: string, replacement: string, p: nat)
    requires |pattern| > 0
    ensures HitAt(Of(Literal(pattern, replacement)), s, p)
      == if At(s, p, pattern, false) then Some(Hit(p + |pattern|, replacement)) else None
  {
    HitAtOf(Literal(pattern, replacement), s, p);
  }

  /** The element pattern matches where `Inline` finds an element, with the capture
      between `before` and `after`. */
  lemma ElementHit(s: string, p: nat, tag: string, before: string, after: string)
    ensures HitAt(Of(Element(tag, before, after)), s, p)
      == match Inline(s, p, tag)
         case Some(b) => Some(Hit(b.1 + |tag| + 3, before + s[b.0..b.1] + after))
         case None => None
  {
    HitAtOf(Element(tag, before, after), s, p);
  }

  /** A literal pattern's leftmost match is its first occurrence. */
  lemma FirstLiteral(s: string, pattern: string, replacement: string, p: nat)
    requires |pattern| > 0 && p <= |s|
    ensures match Find(s, p, pattern, false)
      case None => FirstHit(Of(Literal(pattern, replacement)), s, p).None?
      case Some(q) => FirstHit(Of(Literal(pattern, replacement)), s, p) == Some((q, Hit(q + |pattern|, replacement)))
  {
    var m := Of(Literal(pattern, replacement));
    match Find(s, p, pattern, false)
    case None =>
      forall r | p <= r < |s| ensures HitAt(m, s, r).None? {
        LiteralHit(s, pattern, replacement, r);
      }
      FirstHitNone(m, s, p);
    case Some(q) =>
      forall r | p <= r < q ensures HitAt(m, s, r).None? {
        LiteralHit(s, pattern, replacement, r);
      }
      LiteralHit(s, pattern, replacement, q);
      FirstHitIs(m, s, p, q);
  }

  /** A match with none before it is the first match. */
  lemma {:induction false} FirstHitIs(m: Matcher, s: string, p: nat, q: nat)
    requires p <= q < |s| && Clear(m, s, p, q) && HitAt(m, s, q).Some?
    ensures FirstHit(m, s, p) == Some((q, HitAt(m, s, q).value))
    decreases q - p
  {
    if p < q { FirstHitIs(m, s, p + 1, q); }
  }

  /** No match at all: no first match. */
  lemma {:induction false} FirstHitNone(m: Matcher, s: string, p: nat)
    requires p <= |s| && Clear(m, s, p, |s|)
    ensures FirstHit(m, s, p).None?
    decreases |s| - p
  {
    if p < |s| { FirstHitNone(m, s, p + 1); }
  }

  lemma InsertBefore(s: string, pattern: string, block: string)
    requires |pattern| > 0
    ensures match Find(s, 0, pattern, false)
      case None => ReplaceFirst(Literal(pattern, block + pattern), s) == s
      case Some(k) => ReplaceFirst(Literal(pattern, block + pattern), s) == s[..k] + block + s[k..]
  {
    FirstLiteral(s, pattern, block + pattern, 0);
    match Find(s, 0, pattern, false)
    case None =>
    case Some(k) =>
      ReplaceFirstAt(Literal(pattern, block + pattern), s, k, Hit(k + |pattern|, block + pattern));
      SpliceBefore(s, k, pattern, block);
  }

  /** `replace` without `g` at its first match. */
  lemma ReplaceFirstAt(rule: Rule, s: string, k: nat, h: Hit)
    requires FirstHit(Of(rule), s, 0) == Some((k, h))
    ensures ReplaceFirst(rule, s) == s[..k] + h.text + s[h.end..]
  {
  }

  /** Putting `pattern` back after `block` in place of `pattern` inserts `block`. */
  lemma SpliceBefore(s: string, k: nat, pattern: string, block: string)
    requires At(s, k, pattern, false)
    ensures s[..k] + (block + pattern) + s[k + |pattern|..] == s[..k] + block + s[k..]
  {
    assert s[k..k + |pattern|] == pattern;
    assert s[k..] == pattern + s[k + |pattern|..];
  }

  lemma ReplaceFromFirst(m: Matcher, s: string)
    ensures match FirstHit(m, s, 0)
      case None => ReplaceFrom(m, s, 0) == s
      case Some(f) => ReplaceFrom(m, s, 0) == s[..f.0] + f.1.text + ReplaceFrom(m, s, f.1.end)
  {
    match FirstHit(m, s, 0)
    case None =>
      ReplaceSkips(m, s, 0, |s|);
      assert ReplaceFrom(m, s, |s|) == [];
    case Some(f) =>
      ReplaceSkips(m, s, 0, f.0);
      assert ReplaceFrom(m, s, f.0) == f.1.text + ReplaceFrom(m, s, f.1.end);
      assert s[0..f.0] == s[..f.0];
  }
}
