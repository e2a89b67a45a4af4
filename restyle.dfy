/** The markup and stylesheet rewriters: vertical-writing declarations removed, the
    `<html>` and `<body>` tags forced horizontal, and the font and line-height style
    blocks inserted into every page. */
module Restyle {
  import opened Strings
  import opened Patterns
  import opened ScriptConversion

  // ---------------------------------------------------------------------------
  // Removing vertical-writing declarations

  /** `/writing-mode\s*:\s*vertical[^;]*;?/gi` */
  const VerticalMode: Rule := Declaration("writing-mode", "vertical")
  /** `/-webkit-writing-mode\s*:\s*vertical[^;]*;?/gi` */
  const WebkitVerticalMode: Rule := Declaration("-webkit-writing-mode", "vertical")
  /** `/text-orientation\s*:[^;]*;?/gi` */
  const TextOrientation: Rule := Declaration("text-orientation", "")

  /** The three removal passes, in the order both rewriters run them. */
  function StripVertical(s: string): string {
    ReplaceAll(TextOrientation, ReplaceAll(WebkitVerticalMode, ReplaceAll(VerticalMode, s)))
  }

  /** Characters matching, in any case, a literal free of `;` are not `;`. */
  lemma NoSemicolonAt(s: string, p: nat, lit: string)
    requires ';' !in lit && At(s, p, lit, true)
    ensures forall q :: p <= q < p + |lit| ==> s[q] != ';'
  {
    forall q | p <= q < p + |lit| ensures s[q] != ';' {
      assert Same(s[p + (q - p)], lit[q - p], true);
      assert lit[q - p] in lit;
    }
  }

  /** A declaration match runs from the property name through the next `;`, or to the end
      of the text when no `;` follows, and is replaced by nothing. */
  lemma DeclarationExtent(name: string, value: string, s: string, p: nat)
    requires ';' !in name && ';' !in value
    ensures match DeclarationAt(s, p, name, value)
      case None => true
      case Some(h) =>
        && h.text == []
        && At(s, p, name, true)
        && (forall q :: p <= q < h.end - 1 ==> s[q] != ';')
        && (s[h.end - 1] == ';' || (h.end == |s| && forall q :: p <= q < |s| ==> s[q] != ';'))
  {
    match DeclarationAt(s, p, name, value)
    case None =>
    case Some(h) =>
      NoSemicolonAt(s, p, name);
      var k := SkipSpace(s, p + |name|);
      if value != [] {
        NoSemicolonAt(s, SkipSpace(s, k + 1), value);
      }
  }

  /** Text in which none of the three declarations occurs keeps every character. */
  lemma StripUnchanged(s: string)
    requires NoMatch(VerticalMode, s)
    requires NoMatch(WebkitVerticalMode, s)
    requires NoMatch(TextOrientation, s)
    ensures StripVertical(s) == s
  {
    ReplaceNoMatch(VerticalMode, s);
    ReplaceNoMatch(WebkitVerticalMode, s);
    ReplaceNoMatch(TextOrientation, s);
  }

  /** A prefixed vertical declaration whose value continues with `rest`. */
  function WebkitDeclaration(rest: string): string {
    "-webkit-writing-mode: vertical" + rest + ";"
  }

  /** A declaration pattern does not match where its name does not occur. */
  lemma NameClear(s: string, lo: nat, hi: nat, name: string, value: string)
    requires forall q :: lo <= q < hi ==> !At(s, q, name, true)
    ensures Clear(Of(Declaration(name, value)), s, lo, hi)
  {
    forall q | lo <= q < hi ensures HitAt(Of(Declaration(name, value)), s, q).None? {
      HitAtOf(Declaration(name, value), s, q);
    }
  }

  /** `writing-mode` starts nowhere inside `-webkit-`. */
  lemma PrefixNoName(rest: string)
    ensures forall q :: 0 <= q < 8 ==> !At(WebkitDeclaration(rest), q, "writing-mode", true)
  {
    var s := WebkitDeclaration(rest);
    var w := "writing-mode";
    assert s[..9] == "-webkit-w";
    forall q | 0 <= q < 8 ensures !At(s, q, w, true) {
      if q == 1 {
        assert !Same(s[q + 1], w[1], true);
      } else {
        assert !Same(s[q + 0], w[0], true);
      }
    }
  }

  /** The unprefixed pattern finds nothing inside `-webkit-`. */
  lemma PrefixSkipped(rest: string)
    ensures Clear(Of(VerticalMode), WebkitDeclaration(rest), 0, 8)
  {
    PrefixNoName(rest);
    NameClear(WebkitDeclaration(rest), 0, 8, "writing-mode", "vertical");
  }

  /** The pieces of a prefixed declaration, as the unprefixed pattern reads them from
      position 8. */
  lemma UnprefixedPieces(rest: string)
    ensures var s := WebkitDeclaration(rest);
      && At(s, 8, "writing-mode", true)
      && s[20] == ':' && s[21] == ' '
      && At(s, 22, "vertical", true)
  {
    var s := WebkitDeclaration(rest);
    forall k | 0 <= k < 12 ensures Same(s[8 + k], "writing-mode"[k], true) {
      assert s[8 + k] == "writing-mode"[k];
    }
    forall k | 0 <= k < 8 ensures Same(s[22 + k], "vertical"[k], true) {
      assert s[22 + k] == "vertical"[k];
    }
  }

  /** The only `;` after the value is the final one. */
  lemma ClosingSemicolon(rest: string)
    requires ';' !in rest
    ensures var s := WebkitDeclaration(rest); Next(s, 30, ';') == Some(|s| - 1)
  {
    var s := WebkitDeclaration(rest);
    forall i | 30 <= i < |s| - 1 ensures s[i] != ';' {
      assert s[i] == rest[i - 30];
    }
    NextFirst(s, 30, ';', |s| - 1);
  }

  /** From `writing-mode` on, the declaration pattern spans the rest of the text. */
  lemma UnprefixedAt(rest: string)
    requires ';' !in rest
    ensures var s := WebkitDeclaration(rest);
      DeclarationAt(s, 8, "writing-mode", "vertical") == Some(Hit(|s|, []))
  {
    var s := WebkitDeclaration(rest);
    UnprefixedPieces(rest);
    ClosingSemicolon(rest);
    assert SkipSpace(s, 20) == 20;
    assert SkipSpace(s, 21) == 22 by { assert !IsSpace('v') && s[22] == 'v'; }
  }

  /** From `writing-mode` on, the unprefixed pattern matches the rest of the declaration. */
  lemma UnprefixedMatch(rest: string)
    requires ';' !in rest
    ensures var s := WebkitDeclaration(rest);
      HitAt(Of(VerticalMode), s, 8) == Some(Hit(|s|, []))
  {
    UnprefixedAt(rest);
    HitAtOf(VerticalMode, WebkitDeclaration(rest), 8);
  }

  /** The first removal pass leaves `-webkit-` of a prefixed declaration. */
  lemma FirstPassResidue(rest: string)
    requires ';' !in rest
    ensures ReplaceAll(VerticalMode, WebkitDeclaration(rest)) == "-webkit-"
  {
    var s := WebkitDeclaration(rest);
    PrefixSkipped(rest);
    UnprefixedMatch(rest);
    ReplaceSkips(Of(VerticalMode), s, 0, 8);
    assert ReplaceFrom(Of(VerticalMode), s, 8) == [];
    assert s[0..8] == "-webkit-" by {
      forall k | 0 <= k < 8 ensures s[k] == "-webkit-"[k] { }
    }
  }

  /** The unprefixed pattern runs first and also matches inside the prefixed property, so a
      `-webkit-writing-mode: vertical…;` declaration leaves `-webkit-` behind. */
  lemma WebkitResidue(rest: string)
    requires ';' !in rest
    ensures StripVertical(WebkitDeclaration(rest)) == "-webkit-"
  {
    FirstPassResidue(rest);
    ReplaceNoMatch(WebkitVerticalMode, "-webkit-");
    ReplaceNoMatch(TextOrientation, "-webkit-");
  }

  /** A declaration written inside the value of another. Removing the inner one joins the
      two halves of the outer into a vertical declaration. */
  const Rejoined := "writing-mode: v" + "writing-mode: vertical;" + "ertical;"
  const Rejoins := "writing-mode: v" + "ertical;"

  /** Nothing matches before the inner declaration. At 0 the inner name cuts the value
      short, and no other position starts `writing-mode`. */
  lemma RejoinedFront()
    ensures Clear(Of(VerticalMode), Rejoined, 0, 15)
  {
    var s := Rejoined;
    forall q | 1 <= q < 15 ensures !At(s, q, "writing-mode", true) {
      assert !Same(s[q + 0], "writing-mode"[0], true);
    }
    NameClear(s, 1, 15, "writing-mode", "vertical");
    assert SkipSpace(s, 12) == 12;
    assert SkipSpace(s, 13) == 14 by { assert IsSpace(s[13]) && !IsSpace(s[14]); }
    assert !At(s, 14, "vertical", true) by { assert !Same(s[14 + 1], "vertical"[1], true); }
    HitAtOf(VerticalMode, s, 0);
  }

  /** The inner declaration matches whole, through its `;`. */
  lemma RejoinedMiddle()
    ensures HitAt(Of(VerticalMode), Rejoined, 15) == Some(Hit(38, []))
  {
    var s := Rejoined;
    assert At(s, 15, "writing-mode", true) by {
      forall k | 0 <= k < 12 ensures Same(s[15 + k], "writing-mode"[k], true) { }
    }
    assert SkipSpace(s, 27) == 27;
    assert SkipSpace(s, 28) == 29 by { assert IsSpace(s[28]) && !IsSpace(s[29]); }
    assert At(s, 29, "vertical", true) by {
      forall k | 0 <= k < 8 ensures Same(s[29 + k], "vertical"[k], true) { }
    }
    NextFirst(s, 37, ';', 37);
    HitAtOf(VerticalMode, s, 15);
  }

  /** What follows the inner declaration is copied unchanged. */
  lemma RejoinedBack()
    ensures ReplaceFrom(Of(VerticalMode), Rejoined, 38) == "ertical;"
  {
    var s := Rejoined;
    forall q | 38 <= q < 46 ensures !At(s, q, "writing-mode", true) {
      assert !Same(s[q + 0], "writing-mode"[0], true);
    }
    NameClear(s, 38, 46, "writing-mode", "vertical");
    ReplaceSkips(Of(VerticalMode), s, 38, 46);
    assert s[38..46] == "ertical;";
  }

  /** The first pass removes the inner declaration and joins the halves of the outer. */
  lemma FirstPassRejoins()
    ensures ReplaceAll(VerticalMode, Rejoined) == Rejoins
  {
    var s := Rejoined;
    var m := Of(VerticalMode);
    assert ReplaceFrom(m, s, 0) == s[0..15] + ReplaceFrom(m, s, 15) by {
      RejoinedFront();
      ReplaceSkips(m, s, 0, 15);
    }
    assert ReplaceFrom(m, s, 15) == "ertical;" by {
      RejoinedMiddle();
      ReplaceHit(m, s, 15);
      RejoinedBack();
    }
    assert s[0..15] == "writing-mode: v" by {
      forall k | 0 <= k < 15 ensures s[k] == "writing-mode: v"[k] { }
    }
  }

  /** The prefixed pass finds nothing in the joined text: it holds no `-`
      early enough to start `-webkit-writing-mode`. */
  lemma WebkitPassKeeps()
    ensures ReplaceAll(WebkitVerticalMode, Rejoins) == Rejoins
  {
    var t := Rejoins;
    forall q | 0 <= q < |t| ensures !At(t, q, "-webkit-writing-mode", true) {
      if q <= 3 { assert !Same(t[q + 0], "-webkit-writing-mode"[0], true); }
    }
    NameClear(t, 0, |t|, "-webkit-writing-mode", "vertical");
    ReplaceSkips(Of(WebkitVerticalMode), t, 0, |t|);
  }

  /** The orientation pass finds nothing in the joined text either. */
  lemma OrientationPassKeeps()
    ensures ReplaceAll(TextOrientation, Rejoins) == Rejoins
  {
    var t := Rejoins;
    forall q | 0 <= q < |t| ensures !At(t, q, "text-orientation", true) {
      if q == 3 { assert !Same(t[q + 1], "text-orientation"[1], true); }
      else if q <= 7 { assert !Same(t[q + 0], "text-orientation"[0], true); }
    }
    NameClear(t, 0, |t|, "text-orientation", "");
    ReplaceSkips(Of(TextOrientation), t, 0, |t|);
  }

  /** The joined text is itself a vertical declaration. */
  lemma RejoinsVertical()
    ensures Match(VerticalMode, Rejoins, 0) == Some(Hit(|Rejoins|, []))
  {
    var t := Rejoins;
    assert At(t, 0, "writing-mode", true) by {
      forall k | 0 <= k < 12 ensures Same(t[k], "writing-mode"[k], true) { }
    }
    assert SkipSpace(t, 12) == 12;
    assert SkipSpace(t, 13) == 14 by { assert IsSpace(t[13]) && !IsSpace(t[14]); }
    assert At(t, 14, "vertical", true) by {
      forall k | 0 <= k < 8 ensures Same(t[14 + k], "vertical"[k], true) { }
    }
    NextFirst(t, 22, ';', 22);
  }

  /** The three passes can leave a vertical declaration behind: removing one declaration
      can join the text around it into another. */
  lemma RemovalRejoins()
    ensures StripVertical(Rejoined) == Rejoins
    ensures Match(VerticalMode, StripVertical(Rejoined), 0).Some?
  {
    FirstPassRejoins();
    WebkitPassKeeps();
    OrientationPassKeeps();
    RejoinsVertical();
  }

  // ---------------------------------------------------------------------------
  // Forcing horizontal writing on `<html>` and `<body>`

  const HtmlStyle := " style=\"writing-mode: horizontal-tb;\""
  const BodyStyle := " style=\"writing-mode: horizontal-tb; direction: ltr;\""

  /** `convertToHorizontal`. The `includes` guards are case-sensitive, the tag patterns
      `/<html([^>]*)>/i` and `/<body([^>]*)>/i` are not, and each replaces only its first
      match. */
  function ConvertToHorizontal(s: string): string {
    var t := StripVertical(s);
    var u := if Contains(t, "<html") then ReplaceFirst(OpenTag("html", HtmlStyle), t) else t;
    if Contains(u, "<body") then ReplaceFirst(OpenTag("body", BodyStyle), u) else u
  }

  lemma OpenTagHit(t: string, tag: string, style: string, q: nat)
    ensures HitAt(Of(OpenTag(tag, style)), t, q) == OpenTagAt(t, q, tag, style)
  {
    HitAtOf(OpenTag(tag, style), t, q);
  }

  /** Without a `<tag…>` (a `<tag`, in any case, that a `>` follows), the tag pass
      changes nothing. */
  lemma NoTagUnchanged(t: string, tag: string, style: string)
    requires FirstHit(Of(OpenTag(tag, style)), t, 0).None?
    ensures ReplaceFirst(OpenTag(tag, style), t) == t
    ensures forall q :: 0 <= q < |t| ==> OpenEnd(t, q, tag).None?
  {
    forall q | 0 <= q < |t| ensures OpenEnd(t, q, tag).None? {
      OpenTagHit(t, tag, style, q);
    }
  }

  /** Rewriting a tag already written `<tag` only inserts `style` before its `>`. */
  lemma LowerCaseTag(t: string, tag: string, style: string, q: nat, e: nat)
    requires q + 1 + |tag| < e <= |t| && t[e - 1] == '>' && At(t, q, "<" + tag, false)
    ensures t[..q] + ("<" + tag + t[q + 1 + |tag|..e - 1] + style + ">") + t[e..]
      == t[..e - 1] + style + t[e - 1..]
  {
    assert t[q..q + 1 + |tag|] == "<" + tag by {
      forall k | 0 <= k < 1 + |tag| ensures t[q + k] == ("<" + tag)[k] {
        assert Same(t[q + k], ("<" + tag)[k], false);
      }
    }
    assert t[..e - 1] == t[..q] + t[q..q + 1 + |tag|] + t[q + 1 + |tag|..e - 1];
    assert t[e - 1..] == ">" + t[e..];
  }

  /** The first `<tag…>` (the first `<tag`, in any case, that a `>` follows) is rewritten
      with `style` inserted just before its `>` and its name written in lower case. */
  lemma FirstTagRewritten(t: string, tag: string, style: string, q: nat, h: Hit)
    requires FirstHit(Of(OpenTag(tag, style)), t, 0) == Some((q, h))
    ensures OpenEnd(t, q, tag) == Some(h.end)
    ensures ReplaceFirst(OpenTag(tag, style), t)
      == t[..q] + ("<" + tag + t[q + 1 + |tag|..h.end - 1] + style + ">") + t[h.end..]
  {
    OpenTagHit(t, tag, style, q);
  }

  /** An opening tag that closes at `e` is a hit of the tag pass ending at `e`. */
  lemma OpenTagEnds(t: string, tag: string, style: string, q: nat, e: nat)
    requires OpenEnd(t, q, tag) == Some(e)
    ensures HitAt(Of(OpenTag(tag, style)), t, q).Some?
    ensures HitAt(Of(OpenTag(tag, style)), t, q).value.end == e
  {
    OpenTagHit(t, tag, style, q);
  }

  /** An opening tag with none before it is the first hit of the tag pass. */
  lemma OpenTagFirst(t: string, tag: string, style: string, q: nat, e: nat)
    requires OpenEnd(t, q, tag).Some? && OpenEnd(t, q, tag).value == e
    requires Clear(Of(OpenTag(tag, style)), t, 0, q)
    ensures FirstHit(Of(OpenTag(tag, style)), t, 0).Some?
    ensures FirstHit(Of(OpenTag(tag, style)), t, 0).value.0 == q
    ensures FirstHit(Of(OpenTag(tag, style)), t, 0).value.1.end == e
  {
    OpenTagEnds(t, tag, style, q, e);
    FirstHitIs(Of(OpenTag(tag, style)), t, 0, q);
  }

  /** `LowerCaseTagGains` for a first tag known by its start and its end. */
  lemma FirstTagGains(t: string, tag: string, style: string, q: nat, e: nat)
    requires FirstHit(Of(OpenTag(tag, style)), t, 0).Some?
    requires FirstHit(Of(OpenTag(tag, style)), t, 0).value.0 == q
    requires FirstHit(Of(OpenTag(tag, style)), t, 0).value.1.end == e
    requires At(t, q, "<" + tag, false)
    ensures ReplaceFirst(OpenTag(tag, style), t) == t[..e - 1] + style + t[e - 1..]
  {
    LowerCaseTagGains(t, tag, style, q, FirstHit(Of(OpenTag(tag, style)), t, 0).value.1);
  }

  /** No `<tag…>` opens before `q`. */
  predicate NoOpenBefore(t: string, tag: string, q: nat) {
    forall p :: 0 <= p < q ==> OpenEnd(t, p, tag).None?
  }

  /** A `<tag…>` in lower case closing at `e`, with none before it, gains the style. */
  lemma ClearTagGains(t: string, tag: string, style: string, q: nat, e: nat)
    requires OpenEnd(t, q, tag).Some? && OpenEnd(t, q, tag).value == e
    requires NoOpenBefore(t, tag, q) && At(t, q, "<" + tag, false)
    ensures Contains(t, "<" + tag)
    ensures ReplaceFirst(OpenTag(tag, style), t) == t[..e - 1] + style + t[e - 1..]
  {
    forall p | 0 <= p < q ensures HitAt(Of(OpenTag(tag, style)), t, p).None? {
      OpenTagHit(t, tag, style, p);
    }
    OpenTagFirst(t, tag, style, q, e);
    FirstTagGains(t, tag, style, q, e);
  }

  /** The tag rewritten is the leftmost one: no `<tag…>` starts before it. */
  lemma FirstTagLeftmost(t: string, tag: string, style: string, q: nat, h: Hit)
    requires FirstHit(Of(OpenTag(tag, style)), t, 0) == Some((q, h))
    ensures forall q' :: 0 <= q' < q ==> OpenEnd(t, q', tag).None?
  {
    forall q' | 0 <= q' < q ensures OpenEnd(t, q', tag).None? {
      OpenTagHit(t, tag, style, q');
    }
  }

  /** A first `<tag…>` already written in lower case only gains the attribute. */
  lemma LowerCaseTagGains(t: string, tag: string, style: string, q: nat, h: Hit)
    requires FirstHit(Of(OpenTag(tag, style)), t, 0) == Some((q, h))
    requires At(t, q, "<" + tag, false)
    ensures ReplaceFirst(OpenTag(tag, style), t) == t[..h.end - 1] + style + t[h.end - 1..]
  {
    FirstTagRewritten(t, tag, style, q, h);
    LowerCaseTag(t, tag, style, q, h.end);
  }

  /** A first lower-case `<tag` that a `>` follows guarantees that the tag pass fires, no
      later than that occurrence. */
  lemma TagFound(t: string, tag: string, style: string)
    requires Find(t, 0, "<" + tag, false).Some?
    requires Next(t, Find(t, 0, "<" + tag, false).value + 1 + |tag|, '>').Some?
    ensures FirstHit(Of(OpenTag(tag, style)), t, 0).Some?
    ensures FirstHit(Of(OpenTag(tag, style)), t, 0).value.0 <= Find(t, 0, "<" + tag, false).value
  {
    var k := Find(t, 0, "<" + tag, false).value;
    assert At(t, k, "<" + tag, true) by {
      forall j | 0 <= j < 1 + |tag| ensures Same(t[k + j], ("<" + tag)[j], true) {
        assert Same(t[k + j], ("<" + tag)[j], false);
      }
    }
    HitAtOf(OpenTag(tag, style), t, k);
    assert HitAt(Of(OpenTag(tag, style)), t, k).Some?;
  }

  /** When the stripped text contains neither `<html` nor `<body` (as written, in lower
      case), `convertToHorizontal` only removes declarations. */
  lemma HorizontalWithoutTags(s: string)
    requires !Contains(StripVertical(s), "<html")
    requires !Contains(StripVertical(s), "<body")
    ensures ConvertToHorizontal(s) == StripVertical(s)
  {
  }

  /** Inserting `b` at `k` moves each occurrence at or after `k` by `|b|`. */
  lemma InsertedAt(t: string, k: nat, b: string, p: nat, lit: string, ci: bool)
    requires k <= p && k <= |t|
    ensures At(t[..k] + b + t[k..], p + |b|, lit, ci) == At(t, p, lit, ci)
  {
    var u := t[..k] + b + t[k..];
    forall j | p <= j < |t| ensures u[j + |b|] == t[j] { }
  }

  /** Inserting `b` at `k` leaves an occurrence that ends by `k` where it was. */
  lemma InsertedBefore(t: string, k: nat, b: string, p: nat, lit: string, ci: bool)
    requires p + |lit| <= k <= |t|
    ensures At(t[..k] + b + t[k..], p, lit, ci) == At(t, p, lit, ci)
  {
    var u := t[..k] + b + t[k..];
    forall j | 0 <= j < k ensures u[j] == t[j] { }
  }

  /** Inserting `b` at `k` moves the next `c` at or after `k` by `|b|`. */
  lemma InsertedNext(t: string, k: nat, b: string, p: nat, c: char)
    requires k <= p && k <= |t|
    ensures Next(t, p, c).None? ==> Next(t[..k] + b + t[k..], p + |b|, c).None?
    ensures Next(t, p, c).Some? ==> Next(t[..k] + b + t[k..], p + |b|, c) == Some(Next(t, p, c).value + |b|)
  {
    var u := t[..k] + b + t[k..];
    forall j | p <= j < |t| ensures u[j + |b|] == t[j] { }
    if Next(t, p, c).Some? {
      var j := Next(t, p, c).value;
      forall q | p + |b| <= q < j + |b| ensures u[q] != c { assert u[(q - |b|) + |b|] == t[q - |b|]; }
      NextFirst(u, p + |b|, c, j + |b|);
    }
  }

  /** Inserting `b` at `k` moves each opening tag at or after `k` by `|b|`. */
  lemma InsertedOpenEnd(t: string, k: nat, b: string, p: nat, tag: string)
    requires k <= p && k <= |t|
    ensures OpenEnd(t, p, tag).None? ==> OpenEnd(t[..k] + b + t[k..], p + |b|, tag).None?
    ensures OpenEnd(t, p, tag).Some? ==>
      OpenEnd(t[..k] + b + t[k..], p + |b|, tag) == Some(OpenEnd(t, p, tag).value + |b|)
  {
    InsertedAt(t, k, b, p, "<" + tag, true);
    InsertedNext(t, k, b, p + 1 + |tag|, '>');
  }

  /** The same, for an opening tag known to end at `e`. */
  lemma InsertedOpenEndSome(t: string, k: nat, b: string, p: nat, tag: string, e: nat)
    requires k <= p && k <= |t| && OpenEnd(t, p, tag) == Some(e)
    ensures OpenEnd(t[..k] + b + t[k..], p + |b|, tag) == Some(e + |b|)
  {
    InsertedOpenEnd(t, k, b, p, tag);
  }

  /** No `<tag` starts inside an inserted block that holds no `<` and opens with a space. */
  lemma StyleNoTagStart(t: string, k: nat, b: string, p: nat, tag: string)
    requires k <= |t| && '<' !in b && |b| > 0 && b[0] == ' ' && ' ' !in tag
    requires p < k + |b| && (p < k ==> k < p + 1 + |tag|)
    ensures !At(t[..k] + b + t[k..], p, "<" + tag, true)
  {
    var u := t[..k] + b + t[k..];
    if p + 1 + |tag| <= |u| {
      if p < k {
        var i := k - p;
        assert u[p + i] == ' ';
        assert ("<" + tag)[i] == tag[i - 1];
        assert tag[i - 1] != ' ' by { assert tag[i - 1] in tag; }
        assert !Same(u[p + i], ("<" + tag)[i], true);
      } else {
        assert u[p] == b[p - k];
        assert b[p - k] != '<' by { assert b[p - k] in b; }
        assert !Same(u[p + 0], ("<" + tag)[0], true);
      }
    }
  }

  /** With no `<tag…>` opening before `q2 > k` in `t`, where `t[k]` is a `>`, inserting a
      space-led block without `<` at `k` opens none at `p` before the moved `q2`. */
  lemma InsertedNoTag(t: string, k: nat, b: string, tag: string, q2: nat, p: nat)
    requires k < q2 && k < |t| && t[k] == '>' && '<' !in b && |b| > 0 && b[0] == ' ' && ' ' !in tag
    requires forall q' :: 0 <= q' < q2 ==> OpenEnd(t, q', tag).None?
    requires p < q2 + |b|
    ensures OpenEnd(t[..k] + b + t[k..], p, tag).None?
  {
    if p >= k + |b| {
      InsertedOpenEnd(t, k, b, p - |b|, tag);
    } else if p >= k || k < p + 1 + |tag| {
      StyleNoTagStart(t, k, b, p, tag);
    } else {
      InsertedBefore(t, k, b, p, "<" + tag, true);
      assert OpenEnd(t, p, tag).None?;
    }
  }

  /** With a `<tag…>` opening first at `q2 > k`, where `t[k]` is a `>`, inserting a
      space-led block without `<` at `k` creates no `<tag…>` before the moved one. */
  lemma BodyClearBefore(t: string, k: nat, b: string, tag: string, style: string, q2: nat, h2: Hit)
    requires FirstHit(Of(OpenTag(tag, style)), t, 0) == Some((q2, h2))
    requires k < q2 && k < |t| && t[k] == '>' && '<' !in b && |b| > 0 && b[0] == ' ' && ' ' !in tag
    ensures NoOpenBefore(t[..k] + b + t[k..], tag, q2 + |b|)
  {
    FirstTagLeftmost(t, tag, style, q2, h2);
    forall p | 0 <= p < q2 + |b| ensures OpenEnd(t[..k] + b + t[k..], p, tag).None? {
      InsertedNoTag(t, k, b, tag, q2, p);
    }
  }

  /** The first `<tag…>` of `t`, after `k`, where `t[k]` is a `>`, is still the first one
      once a space-led block `b` without `<` goes in at `k`: moved by the block's length. */
  lemma BodyShifted(t: string, k: nat, b: string, tag: string, style: string, q2: nat, h2: Hit)
    requires FirstHit(Of(OpenTag(tag, style)), t, 0) == Some((q2, h2)) && At(t, q2, "<" + tag, false)
    requires k < q2 && k < |t| && t[k] == '>' && '<' !in b && |b| > 0 && b[0] == ' ' && ' ' !in tag
    ensures var u := t[..k] + b + t[k..];
      && OpenEnd(u, q2 + |b|, tag) == Some(h2.end + |b|)
      && NoOpenBefore(u, tag, q2 + |b|)
      && At(u, q2 + |b|, "<" + tag, false)
  {
    OpenTagHit(t, tag, style, q2);
    InsertedOpenEndSome(t, k, b, q2, tag, h2.end);
    InsertedAt(t, k, b, q2, "<" + tag, false);
    BodyClearBefore(t, k, b, tag, style, q2, h2);
  }

  /** A first `<html…>` and a first `<body…>` of the stripped text, both written in lower
      case, the body tag opening after the html tag closes: each gains its style. */
  lemma BodyAfterHtml(t: string, q: nat, h: Hit, q2: nat, h2: Hit)
    requires FirstHit(Of(OpenTag("html", HtmlStyle)), t, 0) == Some((q, h)) && At(t, q, "<html", false)
    requires FirstHit(Of(OpenTag("body", BodyStyle)), t, 0) == Some((q2, h2)) && At(t, q2, "<body", false)
    requires h.end <= q2
    ensures Contains(t, "<html")
    ensures Contains(ReplaceFirst(OpenTag("html", HtmlStyle), t), "<body")
    ensures ReplaceFirst(OpenTag("body", BodyStyle), ReplaceFirst(OpenTag("html", HtmlStyle), t))
      == t[..h.end - 1] + HtmlStyle + t[h.end - 1..h2.end - 1] + BodyStyle + t[h2.end - 1..]
  {
    assert "<html" == "<" + "html" && "<body" == "<" + "body";
    StyleLeadsWithSpace();
    TwoTagsGain(t, "html", HtmlStyle, "body", BodyStyle, q, h, q2, h2);
  }

  /** The first `<tag1…>` and then the first `<tag2…>`, both in lower case, each gain their
      style when inserting the first style creates no `<tag2`. */
  lemma TwoTagsGain(t: string, tag1: string, style1: string, tag2: string, style2: string,
                    q: nat, h: Hit, q2: nat, h2: Hit)
    requires FirstHit(Of(OpenTag(tag1, style1)), t, 0) == Some((q, h)) && At(t, q, "<" + tag1, false)
    requires FirstHit(Of(OpenTag(tag2, style2)), t, 0) == Some((q2, h2)) && At(t, q2, "<" + tag2, false)
    requires h.end <= q2
    requires '<' !in style1 && |style1| > 0 && style1[0] == ' ' && ' ' !in tag2
    ensures Contains(t, "<" + tag1)
    ensures Contains(ReplaceFirst(OpenTag(tag1, style1), t), "<" + tag2)
    ensures ReplaceFirst(OpenTag(tag2, style2), ReplaceFirst(OpenTag(tag1, style1), t))
      == t[..h.end - 1] + style1 + t[h.end - 1..h2.end - 1] + style2 + t[h2.end - 1..]
  {
    TagGains(t, tag1, style1, q, h);
    var k: nat, m: nat := h.end - 1, h2.end - 1;
    var u := t[..k] + style1 + t[k..];
    assert Contains(u, "<" + tag2)
      && ReplaceFirst(OpenTag(tag2, style2), u) == u[..m + |style1|] + style2 + u[m + |style1|..]
    by {
      TagGainsAfter(t, k, style1, tag2, style2, q2, h2, h2.end + |style1|);
      assert h2.end + |style1| - 1 == m + |style1|;
    }
    InsertedTwice(t, k, style1, m, style2);
  }

  /** A first `<tag…>` written in lower case is found by `includes` and gains the style. */
  lemma TagGains(t: string, tag: string, style: string, q: nat, h: Hit)
    requires FirstHit(Of(OpenTag(tag, style)), t, 0) == Some((q, h)) && At(t, q, "<" + tag, false)
    ensures Contains(t, "<" + tag) && q < h.end <= |t| && t[h.end - 1] == '>'
    ensures ReplaceFirst(OpenTag(tag, style), t) == t[..h.end - 1] + style + t[h.end - 1..]
  {
    OpenTagHit(t, tag, style, q);
    LowerCaseTagGains(t, tag, style, q, h);
  }

  /** The same once a space-led block `b` without `<` went in at `k`, where `t[k]` is a `>`
      before the first `<tag…>`. */
  lemma TagGainsAfter(t: string, k: nat, b: string, tag: string, style: string, q2: nat, h2: Hit, e: nat)
    requires FirstHit(Of(OpenTag(tag, style)), t, 0) == Some((q2, h2)) && At(t, q2, "<" + tag, false)
    requires k < q2 && k < |t| && t[k] == '>' && '<' !in b && |b| > 0 && b[0] == ' ' && ' ' !in tag
    requires e == h2.end + |b|
    ensures var u := t[..k] + b + t[k..];
      && Contains(u, "<" + tag)
      && ReplaceFirst(OpenTag(tag, style), u) == u[..e - 1] + style + u[e - 1..]
  {
    var u := t[..k] + b + t[k..];
    assert OpenEnd(u, q2 + |b|, tag).Some? && OpenEnd(u, q2 + |b|, tag).value == e
      && NoOpenBefore(u, tag, q2 + |b|) && At(u, q2 + |b|, "<" + tag, false)
    by {
      BodyShifted(t, k, b, tag, style, q2, h2);
    }
    ClearTagGains(u, tag, style, q2 + |b|, e);
  }

  /** Two insertions, the second given by its place in the text after the first. */
  lemma InsertedTwice(t: string, k: nat, a: string, m: nat, c: string)
    requires k <= m <= |t|
    ensures var u := t[..k] + a + t[k..];
      u[..m + |a|] + c + u[m + |a|..] == t[..k] + a + t[k..m] + c + t[m..]
  {
    var u := t[..k] + a + t[k..];
    assert u[..m + |a|] == t[..k] + a + t[k..m];
    assert u[m + |a|..] == t[m..];
  }

  /** The html style opens with a space and holds no `<`; the body tag name has no space. */
  lemma StyleLeadsWithSpace()
    ensures |HtmlStyle| > 0 && HtmlStyle[0] == ' ' && '<' !in HtmlStyle && ' ' !in "body"
  {
  }

  /** `convertToHorizontal` on a text whose first `<html…>` and first `<body…>`, after the
      removals, are written in lower case and come in that order: each gains its style. */
  lemma HorizontalBothTags(s: string, q: nat, h: Hit, q2: nat, h2: Hit)
    requires FirstHit(Of(OpenTag("html", HtmlStyle)), StripVertical(s), 0) == Some((q, h))
    requires At(StripVertical(s), q, "<html", false)
    requires FirstHit(Of(OpenTag("body", BodyStyle)), StripVertical(s), 0) == Some((q2, h2))
    requires At(StripVertical(s), q2, "<body", false)
    requires h.end <= q2
    ensures var t := StripVertical(s);
      ConvertToHorizontal(s) == t[..h.end - 1] + HtmlStyle + t[h.end - 1..h2.end - 1] + BodyStyle + t[h2.end - 1..]
  {
    BodyAfterHtml(StripVertical(s), q, h, q2, h2);
  }

  // ---------------------------------------------------------------------------
  // The style blocks

  /** The font stack, piece by piece. */
  const Font1 := "\"Microsoft JhengHei\", "
  const Font2 := "\"微軟正黑體\", "
  const Font3 := "\"PingFang TC\", "
  const Font4 := "\"Helvetica Neue\", "
  const Font5 := "Arial, sans-serif"
  const Fonts := Font1 + Font2 + Font3 + Font4 + Font5

  const FontRule := "    font-family: " + Fonts + " !important;\n"
  const FontRules := "\nbody, html {\n" + FontRule + "}\n* {\n" + FontRule + "}\n"

  /** `changeFontFamily`'s block. */
  const FontStyle := "\n<style>" + FontRules + "</style>"

  function LineRule(lineHeight: string): string {
    "    line-height: " + lineHeight + " !important;\n"
  }

  /** `applyLineHeight`'s block for the configured value. */
  function LineHeightStyle(lineHeight: string): string {
    "\n<style>\nbody, html {\n" + LineRule(lineHeight)
    + "}\np, div, span, h1, h2, h3, h4, h5, h6, li, td, th {\n" + LineRule(lineHeight)
    + "}\np, div.text, .content, .chapter {\n" + LineRule(lineHeight)
    + "}\n* {\n" + LineRule(lineHeight) + "}\n</style>"
  }

  /** Where a block goes: the first `</head>`, otherwise the first `<html`, both matched
      case-sensitively; `None` when the text has neither. */
  function Anchor(s: string): Option<nat> {
    match Find(s, 0, "</head>", false)
    case Some(k) => Some(k)
    case None => Find(s, 0, "<html", false)
  }

  function InsertionPoint(s: string): (k: nat)
    ensures k <= |s|
  {
    match Anchor(s)
    case Some(k) => k
    case None => 0
  }

  /** The insertion shared by `changeFontFamily` and `applyLineHeight`: `includes` picks
      the anchor and a string `replace` puts the block before its first occurrence. */
  function InsertStyle(s: string, block: string): string {
    if Contains(s, "</head>") then ReplaceFirst(Literal("</head>", block + "</head>"), s)
    else if Contains(s, "<html") then ReplaceFirst(Literal("<html", block + "<html"), s)
    else block + s
  }

  /** The block is inserted exactly once, at the insertion point. */
  lemma InsertStyleSplice(s: string, block: string)
    ensures InsertStyle(s, block) == s[..InsertionPoint(s)] + block + s[InsertionPoint(s)..]
  {
    if Contains(s, "</head>") {
      InsertBefore(s, "</head>", block);
    } else if Contains(s, "<html") {
      InsertBefore(s, "<html", block);
    } else {
      assert s[..0] + block + s[0..] == block + s;
    }
  }

  /** Cutting the inserted block out again gives back the input. */
  lemma InsertStyleRemoval(s: string, block: string)
    ensures var (k, r) := (InsertionPoint(s), InsertStyle(s, block));
      |r| == |s| + |block| && r[k..k + |block|] == block && r[..k] + r[k + |block|..] == s
  {
    InsertStyleSplice(s, block);
    var k := InsertionPoint(s);
    var r := s[..k] + block + s[k..];
    assert r[..k] == s[..k];
    assert r[k..k + |block|] == block;
    assert r[k + |block|..] == s[k..];
    assert s[..k] + s[k..] == s;
  }

  function ChangeFontFamily(s: string): string {
    InsertStyle(s, FontStyle)
  }

  /** `applyLineHeight`. The value is spliced into a `replace` replacement string, where
      `$` would start a substitution pattern; it is required to hold none. */
  function ApplyLineHeight(s: string, lineHeight: string): string
    requires '$' !in lineHeight
  {
    InsertStyle(s, LineHeightStyle(lineHeight))
  }

  /** A block that cannot create or hide an anchor: it starts with a line feed and each of
      its `<` begins `<s` or `</s`. */
  predicate Inert(b: string) {
    |b| > 0 && b[0] == '\n' && forall i :: 0 <= i < |b| ==> StyleOnly(b, i)
  }

  /** A `<` at `i` in `b` begins `<s` or `</s`. */
  predicate StyleOnly(b: string, i: nat)
    requires i < |b|
  {
    b[i] == '<' ==> i + 2 < |b| && (b[i + 1] == 's' || (b[i + 1] == '/' && b[i + 2] == 's'))
  }

  /** An anchor pattern such a block cannot contain: it starts with `<`, has no line feed,
      and does not continue like `<s` or `</s`. */
  predicate Probe(p: string) {
    && |p| >= 3 && p[0] == '<' && p[1] != 's' && (p[1] == '/' ==> p[2] != 's')
    && forall k :: 0 <= k < |p| ==> p[k] != '\n'
  }

  lemma Font1Clean() ensures '<' !in Font1 { }
  lemma Font2Clean() ensures '<' !in Font2 { }
  lemma Font3Clean() ensures '<' !in Font3 { }
  lemma Font4Clean() ensures '<' !in Font4 { }
  lemma Font5Clean() ensures '<' !in Font5 { }
  lemma FontRuleClean() ensures '<' !in FontRule {
    Font1Clean(); Font2Clean(); Font3Clean(); Font4Clean(); Font5Clean();
    assert '<' !in "    font-family: " && '<' !in " !important;\n";
  }

  /** A `<style>` element whose rules hold no `<` is inert. */
  lemma StyleElementInert(rules: string)
    requires '<' !in rules
    ensures Inert("\n<style>" + rules + "</style>")
  {
    var b := "\n<style>" + rules + "</style>";
    assert forall i :: 8 <= i < 8 + |rules| ==> b[i] == rules[i - 8];
  }

  /** The font block is inert. */
  lemma FontBlockInert()
    ensures Inert(FontStyle)
  {
    FontRuleClean();
    assert '<' !in FontRules by {
      assert '<' !in "\nbody, html {\n" && '<' !in "}\n* {\n" && '<' !in "}\n";
    }
    StyleElementInert(FontRules);
  }

  /** Splicing an inert block into `t` at `k` neither creates an occurrence of a probe
      nor destroys one: the occurrences are those of `t`, shifted past the block. */
  lemma ProbeSplice(t: string, k: nat, b: string, p: string, q: nat)
    requires k <= |t| && Inert(b) && Probe(p)
    ensures At(t[..k] + b + t[k..], q, p, false) <==>
      (q + |p| <= k && At(t, q, p, false)) || (q >= k + |b| && At(t, q - |b|, p, false))
  {
    var u := t[..k] + b + t[k..];
    if q + |p| <= k {
      forall j | 0 <= j < |p| ensures Same(u[q + j], p[j], false) == Same(t[q + j], p[j], false) { }
    } else if q < k {
      assert u[k] == '\n' && p[k - q] != '\n';
    } else if q < k + |b| {
      var i := q - k;
      assert u[q] == b[i] && StyleOnly(b, i);
      if b[i] == '<' {
        assert u[q + 1] == b[i + 1] && u[q + 2] == b[i + 2];
      }
    } else if q + |p| <= |u| {
      forall j | 0 <= j < |p| ensures Same(u[q + j], p[j], false) == Same(t[q - |b| + j], p[j], false) { }
    }
  }

  /** A probe absent from `t` stays absent after splicing an inert block. */
  lemma SpliceAbsent(t: string, k: nat, b: string, p: string)
    requires k <= |t| && Inert(b) && Probe(p)
    requires Find(t, 0, p, false).None?
    ensures Find(t[..k] + b + t[k..], 0, p, false).None?
  {
    forall q | 0 <= q ensures !At(t[..k] + b + t[k..], q, p, false) {
      ProbeSplice(t, k, b, p, q);
    }
  }

  /** A probe found at `j + |b|` in the spliced text is found there first when `t` has no
      occurrence before `j >= k`. */
  lemma SpliceFirst(t: string, k: nat, b: string, p: string, j: nat)
    requires k <= |t| && Inert(b) && Probe(p) && k <= j
    requires forall q :: 0 <= q < j ==> !At(t, q, p, false)
    requires At(t[..k] + b + t[k..], j + |b|, p, false)
    ensures Find(t[..k] + b + t[k..], 0, p, false) == Some(j + |b|)
  {
    forall q | 0 <= q < j + |b| ensures !At(t[..k] + b + t[k..], q, p, false) {
      ProbeSplice(t, k, b, p, q);
      if q >= k + |b| {
        assert !At(t, q - |b|, p, false);
      }
    }
    FindFirst(t[..k] + b + t[k..], 0, p, false, j + |b|);
  }

  /** A probe whose first occurrence in `t` is at `j >= k` is first found at `j + |b|`
      after splicing an inert block at `k`. */
  lemma SpliceShifted(t: string, k: nat, b: string, p: string, j: nat)
    requires k <= |t| && Inert(b) && Probe(p)
    requires k <= j && At(t, j, p, false) && forall q :: 0 <= q < j ==> !At(t, q, p, false)
    ensures Find(t[..k] + b + t[k..], 0, p, false) == Some(j + |b|)
  {
    ProbeSplice(t, k, b, p, j + |b|);
    SpliceFirst(t, k, b, p, j);
  }

  lemma AnchorsAreProbes()
    ensures Probe("</head>") && Probe("<html")
  {
  }

  /** Splicing an inert block in front of a `</head>` makes that `</head>` the anchor. */
  lemma HeadShifted(t: string, b: string, j: nat)
    requires Inert(b) && Find(t, 0, "</head>", false) == Some(j)
    ensures Anchor(t[..j] + b + t[j..]) == Some(j + |b|)
  {
    AnchorsAreProbes();
    SpliceShifted(t, j, b, "</head>", j);
  }

  /** Splicing an inert block in front of the first `<html` of a text without `</head>`
      makes that `<html` the anchor. */
  lemma HtmlShifted(t: string, b: string, j: nat)
    requires Inert(b) && Find(t, 0, "</head>", false).None?
    requires Find(t, 0, "<html", false) == Some(j)
    ensures Anchor(t[..j] + b + t[j..]) == Some(j + |b|)
  {
    AnchorsAreProbes();
    SpliceAbsent(t, j, b, "</head>");
    SpliceShifted(t, j, b, "<html", j);
  }

  /** A text without anchor still has none after an inert block goes in front. */
  lemma NoAnchorKept(t: string, b: string)
    requires Inert(b) && Anchor(t).None?
    ensures Anchor(t[..0] + b + t[0..]).None?
  {
    AnchorsAreProbes();
    SpliceAbsent(t, 0, b, "</head>");
    SpliceAbsent(t, 0, b, "<html");
  }

  /** Splicing an inert block in at the insertion point moves the anchor past the block. */
  lemma AnchorSplice(t: string, b: string)
    requires Inert(b)
    ensures var k := InsertionPoint(t);
      Anchor(t[..k] + b + t[k..]) == match Anchor(t) case Some(a) => Some(a + |b|) case None => None
  {
    match Find(t, 0, "</head>", false)
    case Some(j) =>
      assert InsertionPoint(t) == j;
      HeadShifted(t, b, j);
    case None =>
      match Find(t, 0, "<html", false)
      case Some(j) =>
        assert InsertionPoint(t) == j;
        HtmlShifted(t, b, j);
      case None =>
        assert InsertionPoint(t) == 0;
        NoAnchorKept(t, b);
  }

  /** Inserting an inert block moves the anchor past the block and changes nothing else
      about it. */
  lemma InertAnchor(t: string, block: string)
    requires Inert(block)
    ensures Anchor(InsertStyle(t, block))
      == match Anchor(t) case Some(k) => Some(k + |block|) case None => None
  {
    InsertStyleSplice(t, block);
    AnchorSplice(t, block);
  }

  /** In `processHtmlContent` the font block comes first and the line-height block right
      after it, both at the anchor; a text with neither `</head>` nor `<html` gets both at
      its start, the line-height block in front. */
  lemma FontThenLineHeight(t: string, lineHeight: string)
    requires '$' !in lineHeight
    ensures var r := ApplyLineHeight(ChangeFontFamily(t), lineHeight);
      match Anchor(t)
      case Some(k) => r == t[..k] + FontStyle + LineHeightStyle(lineHeight) + t[k..]
      case None => r == LineHeightStyle(lineHeight) + FontStyle + t
  {
    var lh := LineHeightStyle(lineHeight);
    var t1 := ChangeFontFamily(t);
    FontBlockInert();
    InertAnchor(t, FontStyle);
    InsertStyleSplice(t, FontStyle);
    InsertStyleSplice(t1, lh);
    var k := InsertionPoint(t);
    match Anchor(t)
    case Some(_) =>
      assert InsertionPoint(t1) == k + |FontStyle|;
      assert t1[..k + |FontStyle|] == t[..k] + FontStyle;
      assert t1[k + |FontStyle|..] == t[k..];
    case None =>
      assert InsertionPoint(t1) == 0;
  }

  /** The configured value appears verbatim in the line-height block. */
  lemma LineHeightInBlock(lineHeight: string)
    ensures Occurs(lineHeight, LineHeightStyle(lineHeight))
  {
    var b := LineHeightStyle(lineHeight);
    var i := |"\n<style>\nbody, html {\n"| + |"    line-height: "|;
    forall k | 0 <= k < |lineHeight| ensures Same(b[i + k], lineHeight[k], false) {
      assert b[i + k] == LineRule(lineHeight)[|"    line-height: "| + k];
    }
    assert At(b, i, lineHeight, false);
  }

  /** The configured value appears verbatim in the page after `applyLineHeight`. */
  lemma LineHeightVerbatim(s: string, lineHeight: string)
    requires '$' !in lineHeight
    ensures Occurs(lineHeight, ApplyLineHeight(s, lineHeight))
  {
    InsertStyleSplice(s, LineHeightStyle(lineHeight));
    LineHeightInBlock(lineHeight);
    var k := InsertionPoint(s);
    OccursWithin(lineHeight, s[..k], LineHeightStyle(lineHeight), s[k..]);
  }

  /** `processHtmlContent` without OpenCC: fallback conversion, horizontal writing, the
      font block, then the line-height block. */
  function ProcessHtmlContent(html: string, lineHeight: string): string
    requires '$' !in lineHeight
  {
    ApplyLineHeight(ChangeFontFamily(ConvertToHorizontal(Convert(html))), lineHeight)
  }

  /** The page after processing is the converted, horizontal page with both blocks
      spliced in at its anchor. */
  lemma ProcessHtmlShape(html: string, lineHeight: string)
    requires '$' !in lineHeight
    ensures var t := ConvertToHorizontal(Convert(html));
      var r := ProcessHtmlContent(html, lineHeight);
      match Anchor(t)
      case Some(k) => r == t[..k] + FontStyle + LineHeightStyle(lineHeight) + t[k..]
      case None => r == LineHeightStyle(lineHeight) + FontStyle + t
  {
    FontThenLineHeight(ConvertToHorizontal(Convert(html)), lineHeight);
  }

  // ---------------------------------------------------------------------------
  // The stylesheet rewriter

  const HorizontalDeclaration := "writing-mode: horizontal-tb"
  const CssHead := "\n/* 轉換器添加的樣式 */\nbody, html {\n    "

  /** The rule block `modifyCssStyles` appends. */
  function CssRules(lineHeight: string): string {
    CssHead + HorizontalDeclaration + " !important;\n    direction: ltr !important;\n"
    + FontRule + LineRule(lineHeight)
    + "}\n\n* {\n" + FontRule + LineRule(lineHeight)
    + "}\n\np, div, span, h1, h2, h3, h4, h5, h6, li, td, th {\n" + LineRule(lineHeight) + "}\n"
  }

  /** `modifyCssStyles`: the three removals, then the rule block appended. */
  function ModifyCssStyles(css: string, lineHeight: string): string {
    StripVertical(css) + CssRules(lineHeight)
  }

  /** The appended block declares horizontal writing. */
  lemma CssRulesHorizontal(lineHeight: string)
    ensures Occurs(HorizontalDeclaration, CssRules(lineHeight))
  {
    var b := CssRules(lineHeight);
    var n := |CssHead|;
    forall k | 0 <= k < |HorizontalDeclaration|
      ensures Same(b[n + k], HorizontalDeclaration[k], false)
    {
      assert b[n + k] == (CssHead + HorizontalDeclaration)[n + k];
    }
    assert At(b, n, HorizontalDeclaration, false);
  }

  /** The appended block holds the configured value verbatim. */
  lemma CssRulesLineHeight(lineHeight: string)
    ensures Occurs(lineHeight, CssRules(lineHeight))
  {
    var b := CssRules(lineHeight);
    var prefix := CssHead + HorizontalDeclaration + " !important;\n    direction: ltr !important;\n"
      + FontRule;
    var i := |prefix| + |"    line-height: "|;
    forall k | 0 <= k < |lineHeight| ensures Same(b[i + k], lineHeight[k], false) {
      assert b[i + k] == LineRule(lineHeight)[|"    line-height: "| + k];
    }
    assert At(b, i, lineHeight, false);
  }

  /** The rewritten stylesheet is the stripped input followed by the fixed block, which
      declares horizontal writing and holds the configured value verbatim; an input with
      no vertical declaration is kept whole in front of the block. */
  lemma ModifyCssSpec(css: string, lineHeight: string)
    ensures var r := ModifyCssStyles(css, lineHeight);
      && r[..|StripVertical(css)|] == StripVertical(css)
      && r[|StripVertical(css)|..] == CssRules(lineHeight)
      && Occurs(HorizontalDeclaration, r)
      && Occurs(lineHeight, r)
    ensures NoMatch(VerticalMode, css) && NoMatch(WebkitVerticalMode, css) && NoMatch(TextOrientation, css)
      ==> ModifyCssStyles(css, lineHeight) == css + CssRules(lineHeight)
  {
    var (t, rules) := (StripVertical(css), CssRules(lineHeight));
    assert (t + rules)[..|t|] == t && (t + rules)[|t|..] == rules;
    assert t + rules + [] == t + rules;
    CssRulesHorizontal(lineHeight);
    OccursWithin(HorizontalDeclaration, t, rules, []);
    CssRulesLineHeight(lineHeight);
    OccursWithin(lineHeight, t, rules, []);
    if NoMatch(VerticalMode, css) && NoMatch(WebkitVerticalMode, css) && NoMatch(TextOrientation, css) {
      StripUnchanged(css);
    }
  }

  /** `processCssContent` without OpenCC: fallback conversion, then `modifyCssStyles`. */
  function ProcessCssContent(css: string, lineHeight: string): string {
    ModifyCssStyles(Convert(css), lineHeight)
  }
}
