# EPUB vertical-to-horizontal converter, content pipeline

This project models the content-transformation core of a browser-side EPUB converter
(`script.js`). The converter turns vertically written Chinese e-books into horizontal ones,
and it can also turn a book into one Markdown file. The model covers these steps:

- **Archive rewriting.** `processEpubContent` walks the archive's entries. It rewrites
  every `.html`/`.xhtml` page and every `.css` stylesheet, copies every other file, and
  counts the pages.
- **Character conversion.** `basicSimplifiedToTraditional` is the fallback
  Simplified-to-Traditional converter. It replaces characters using a fixed
  character table.
- **Page restyling.** `convertToHorizontal`, `changeFontFamily`, `applyLineHeight` and
  `processHtmlContent` remove vertical-writing declarations from a page. They give the
  `<html>` and `<body>` tags a horizontal style and insert a font block and a line-height
  block before `</head>`, or else before `<html`, or else at the start.
- **Stylesheet restyling.** `modifyCssStyles` and `processCssContent` strip the same
  declarations from a stylesheet and append a fixed rule block that holds the configured
  line height.
- **Package lookup.** `findOpfFile` locates the package document. It uses the
  container's `full-path` attribute, or else the last entry whose name ends in `.opf`.
- **Markdown export.** `convertToMarkdown` reads the title from `<dc:title>`. It sorts the
  page paths the way `Array.prototype.sort` does, renders each page with
  `htmlToMarkdown`, and writes one numbered chapter per page that is not blank.
- **Markdown rendering.** `htmlToMarkdown` is a fixed chain of regular-expression
  replacements. It drops hidden markup, rewrites a few elements, strips the remaining
  tags, decodes six entities, collapses blank lines and trims the result.

Modules, following the program's structure:

- `Strings`:
  - JavaScript's `\s` class and line terminators;
  - literal search, with and without ASCII case folding;
  - `trim`, `endsWith` on a lower-cased path, and decimal rendering.
- `Patterns`:
  - each regular-expression shape the script uses, as a `Rule` with a matcher that
    returns the end of the match and its replacement text;
  - leftmost, non-overlapping global replacement (`ReplaceAll`) and first-match
    replacement (`ReplaceFirst`).
  - `[^;]*`, `[^>]*` and `[^"]*` are greedy; `(.*?)` is lazy and stops at line
    terminators; `[\s\S]*?` is lazy and crosses them; `/i` is ASCII case folding.
- `ScriptConversion`: the 48-entry fallback table, the method with its loop, and the
  `Convert` function that specifies it.
- `Restyle`:
  - declaration removal, the `<html>`/`<body>` style attributes, style-block insertion;
  - the page pipeline and the stylesheet pipeline.
- `Markdown`: the `htmlToMarkdown` chain, including the callback-driven list rewriting.
- `PathOrder`:
  - the UTF-16 code-unit order of the default `sort()`;
  - an insertion sort as its reference, with a proof that it is the only ascending
    order of distinct paths.
- `Epub`:
  - the archive as a sequence of entries;
  - the `processEpubContent`, `findOpfFile` and `convertToMarkdown` methods, each
    proved against a specification function.

The archive is a `seq<Entry>`. Each entry has a path, a directory flag and a text content.
`zip.file(path)` is `Lookup`, which returns `None` for a missing entry or for a directory.
Entry paths are keys of a dictionary, so lemmas that need them distinct take
`UniquePaths` as a precondition. The mutable field `selectedLineHeight`, the only state
the core reads, is the parameter `lineHeight`.

Quirks of the script as written, modelled as they are:

- The first removal pattern runs before the prefixed one. `-webkit-writing-mode: vertical-rl;`
  therefore leaves `-webkit-` behind (`Restyle.WebkitResidue`).
- Each removal pass runs once. Removing one declaration can join the text around it
  into a new vertical declaration, which then survives (`Restyle.RemovalRejoins`).
- The two blocks are each inserted before the same anchor. The font block therefore
  precedes the line-height block only when the page has `</head>` or `<html`. Otherwise
  the line-height block comes first (`Restyle.FontThenLineHeight`).
- `<b[^>]*>` also matches a `<body …>` tag, and `<p[^>]*>` also matches `<pre …>`
  (`Markdown.LongerTagsTaken`).
- The ordered-list callback returns a literal `$1`. A function replacement does not
  expand `$1`, so every numbered item loses its text (`Markdown.NumberedItemLosesText`).
- Chapter numbers follow positions in the sorted path list. A blank page therefore leaves
  a gap in the numbering (`Epub.BlankPageSkipped`).
- The table literal names `发` and `计` twice, with the same value each time. As an object
  it therefore holds 48 entries, not 50 (`ScriptConversion.TableSettled`).

## Model

| member | source | states |
|---|---|---|
| ScriptConversion.BasicSimplifiedToTraditional | script.js:290-310 | the loop over the table yields `Convert(text)`, which replaces every character by its table value at once |
| ScriptConversion.Convert | script.js:292-309 | models the fallback conversion as one per-character table lookup; `ConvertSpec` and `ConvertIdempotent` describe it, and the loop is proved equal to it |
| ScriptConversion.ConvertSpec | script.js:292-308 | the output has the input's length; a mapped character becomes its table value, an unmapped one is kept, and every output character is a fixed point of the table |
| ScriptConversion.ConvertIdempotent | script.js:292-309 | converting twice gives the same text as converting once |
| ScriptConversion.ConvertCharIdempotent | script.js:292-303 | a converted character converts to itself, because the values that are also keys (算 件 程 序 言 技) map to themselves |
| ScriptConversion.TableSettled | script.js:292-303 | the 48 keys are distinct, and a value that is also a key is the key of its own entry, so it maps to itself |
| ScriptConversion.LookupExact | script.js:292-303 | a character's table index is `i` exactly when entry `i` has that character as its key |
| ScriptConversion.Search | script.js:306-307 | the table search finds an entry with the character as its key, or proves that no entry has it |
| Strings.TrimSpec | script.js:574 | `trim` keeps a slice that neither starts nor ends with white space, removes only white space, and is empty exactly when the input is all white space |
| Strings.Find | script.js:326-330 | `includes`/`indexOf`: the returned position holds the literal and is the leftmost such position; `None` means it occurs nowhere |
| Strings.NatToString | script.js:463 | the chapter number is rendered as non-empty decimal digits with no leading zero |
| Strings.NatToStringValue | script.js:463 | the rendered digits read back, most significant first, as the number itself |
| Patterns.FirstHit | script.js:327 | the first match of a pattern: the match there, and no match at any earlier position |
| Patterns.ReplaceNoMatch | script.js:317-323 | a global replacement whose pattern matches nowhere leaves the text unchanged |
| Patterns.ReplaceCharFrom | script.js:307 | replacing one character globally swaps every occurrence of it and keeps every other character |
| Patterns.InsertBefore | script.js:349-355 | `replace(anchor, block + anchor)` inserts the block right before the first occurrence of the anchor, and changes nothing when the anchor is absent |
| Patterns.DcTitleAt | script.js:426 | a `<dc:title …>text</dc:title>` match captures non-empty text without `<` |
| Patterns.FullPathAt | script.js:486 | a `full-path="…"` match captures a value with no `"` that ends in `.opf` (any case) and has at least one character before it |
| Patterns.DcTitleMatch | script.js:426 | an element `<dc:title attrs>x</dc:title>` with no `>` in its attributes and non-empty text `x` without `<` is matched whole, capturing exactly `x` |
| Patterns.FullPathMatch | script.js:486 | an attribute `full-path="v"`, with `v` free of `"`, ending in `.opf` (any case) and longer than the suffix, is matched whole, capturing exactly `v` |
| Patterns.AnyTagAt | script.js:562 | `<[^>]+>` matches at a position exactly when a `<` there is followed, after one or more non-`>` characters, by a `>` |
| Patterns.OpenEnd | script.js:327 | `<tag[^>]*>` matches from `<tag` (any case) up to the first `>` after the name, and fails only when no `>` follows |
| Patterns.Lazy | script.js:516-559 | a lazy `(.*?)` ends at the first occurrence of its closing literal, crossing no line terminator |
| Restyle.DeclarationExtent | script.js:317 | a declaration match starts at the property name, runs through the next `;` or else to the end of the text, and is replaced by nothing |
| Restyle.StripVertical | script.js:317-323 | models the three removal passes in source order; `DeclarationExtent`, `StripUnchanged`, `WebkitResidue` and `RemovalRejoins` describe it |
| Restyle.StripUnchanged | script.js:317-323 | text on which none of the three declaration patterns matches is unchanged by the removal step |
| Restyle.FirstPassResidue | script.js:317 | the unprefixed pattern matches inside `-webkit-writing-mode: vertical…;` and takes everything after `-webkit-` |
| Restyle.WebkitResidue | script.js:317-323 | after all three removals, `-webkit-writing-mode: vertical-…;` leaves `-webkit-` |
| Restyle.RejoinedFront | script.js:317 | in `writing-mode: vwriting-mode: vertical;ertical;` nothing matches before the inner declaration |
| Restyle.RejoinedMiddle | script.js:317 | the inner declaration is matched whole, through its `;` |
| Restyle.RejoinedBack | script.js:317 | the text after the inner declaration is copied unchanged |
| Restyle.FirstPassRejoins | script.js:317 | the first removal pass turns that text into `writing-mode: vertical;` |
| Restyle.WebkitPassKeeps | script.js:320 | the prefixed removal pass leaves `writing-mode: vertical;` unchanged |
| Restyle.OrientationPassKeeps | script.js:323 | the orientation removal pass leaves `writing-mode: vertical;` unchanged |
| Restyle.RejoinsVertical | script.js:317 | `writing-mode: vertical;` is itself matched whole by the vertical declaration pattern |
| Restyle.RemovalRejoins | script.js:317-323 | all three removals turn that text into `writing-mode: vertical;`, on which the vertical pattern still matches |
| Restyle.NoTagUnchanged | script.js:326-332 | when no opening tag matches, the tag rewrite leaves the text unchanged, and no `<tag` there has a closing `>` after it |
| Restyle.FirstTagRewritten | script.js:327-331 | the first `<tag…>` match is rewritten to `<tag`, its attributes, the style attribute and `>`; the rest of the text is kept |
| Restyle.FirstTagLeftmost | script.js:327-331 | the tag rewritten is the first `<tag…>` of the text: no earlier position holds a complete opening tag |
| Restyle.LowerCaseTagGains | script.js:327-331 | for a lower-case tag the rewrite adds the style attribute just before the tag's `>` and changes nothing else |
| Restyle.TagFound | script.js:326-332 | when the text holds `<tag` followed later by `>`, an opening tag is rewritten, at or before that `<tag` |
| Restyle.HorizontalWithoutTags | script.js:326-334 | without `<html` and `<body` the output is the stripped text alone |
| Restyle.ConvertToHorizontal | script.js:312-335 | models the removals followed by the guarded `<html…>` and `<body…>` rewrites; `HorizontalWithoutTags`, `HorizontalBothTags`, `TagFound`, `FirstTagRewritten` and `LowerCaseTagGains` describe it |
| Restyle.HorizontalBothTags | script.js:312-335 | when the first `<html…>` and the first `<body…>` left after the removals are written in lower case and the body tag follows the html tag, each gains its style attribute just before its `>` and nothing else changes |
| Restyle.InsertStyleSplice | script.js:349-355 | the block is spliced in at the insertion point: before the first `</head>`, else before the first `<html`, else at position 0 |
| Restyle.InsertStyleRemoval | script.js:375-381 | the output is longer by exactly the block, holds the block at the insertion point, and gives back the input when that block is deleted |
| Restyle.InsertStyle | script.js:349-355 | models the shared `</head>`, else `<html`, else start-of-text insertion; `InsertStyleSplice`, `InsertStyleRemoval` and `AnchorSplice` describe it |
| Restyle.ChangeFontFamily | script.js:337-356 | models the insertion of the fixed font block; `InsertStyleSplice`, `InsertStyleRemoval` and `FontThenLineHeight` describe it |
| Restyle.AnchorSplice | script.js:349-381 | splicing a style block in moves the anchor later by the block's length, and never creates or destroys one |
| Restyle.FontThenLineHeight | script.js:258-264 | after both insertions the font block precedes the line-height block at the anchor; with no anchor the line-height block comes first |
| Restyle.LineHeightInBlock | script.js:359-373 | the line-height block holds the configured value verbatim |
| Restyle.LineHeightVerbatim | script.js:358-382 | the output of `applyLineHeight` holds the configured value verbatim |
| Restyle.ApplyLineHeight | script.js:358-382 | models the insertion of the line-height block; `LineHeightInBlock`, `LineHeightVerbatim`, `InsertStyleRemoval` and `FontThenLineHeight` describe it |
| Restyle.ProcessHtmlShape | script.js:240-267 | a processed page is the converted, horizontal page with the font block and then the line-height block spliced in at its anchor |
| Restyle.ProcessHtmlContent | script.js:240-267 | models conversion, restyling and both insertions of a page; `ProcessHtmlShape` and `FontThenLineHeight` describe it |
| Restyle.CssRulesHorizontal | script.js:393-410 | the appended stylesheet block declares `writing-mode: horizontal-tb` |
| Restyle.CssRulesLineHeight | script.js:399-408 | the appended stylesheet block holds the configured line height verbatim |
| Restyle.ModifyCssSpec | script.js:384-413 | the output is the stripped input followed by the fixed block, contains `writing-mode: horizontal-tb` and the line height, and equals input plus block when nothing is stripped |
| Restyle.ModifyCssStyles | script.js:384-413 | models the stylesheet removals and the appended rule block; `ModifyCssSpec`, `CssRulesHorizontal` and `CssRulesLineHeight` describe it |
| Restyle.ProcessCssContent | script.js:269-288 | models character conversion followed by `modifyCssStyles`; `Epub.SheetRewritten` describes it |
| Markdown.HtmlToMarkdown | script.js:506-577 | the Markdown has no leading or trailing white space, and three newlines separated only by white space occur nowhere in it |
| Markdown.Tidy | script.js:573-574 | collapsing and trimming leave no blank-line run and no outer white space |
| Markdown.StrippedTagFree | script.js:562 | after the tag-strip pass, no `<` followed by one or more non-`>` characters and a `>` remains |
| Markdown.StripTagFree | script.js:562 | the left-to-right strip scan produces tag-free text from any starting position |
| Markdown.TagFreeNoTag | script.js:562 | tag-free text has no match of `<[^>]+>` |
| Markdown.CollapseCalm | script.js:573 | after collapsing, no position starts a run of three newlines separated only by white space |
| Markdown.TrimCalm | script.js:574 | trimming keeps that property and leaves no blank-line match |
| Markdown.EntityOrder | script.js:565-570 | because `&amp;` is decoded before `&lt;`, `&amp;lt;` becomes `<` |
| Markdown.AmpDecoded | script.js:566 | the `&amp;` pass turns `&amp;lt;` into `&lt;` |
| Markdown.LtDecoded | script.js:567 | the `&lt;` pass turns `&lt;` into `<` |
| Markdown.WrappedMatched | script.js:516-559 | an element `<tag attrs>x</tag>` with plain content is matched whole, capturing exactly `x` |
| Markdown.InlineWrapped | script.js:516-559 | the element pattern finds such an element's content between its tags |
| Markdown.ElementRendered | script.js:516-559 | a text matched whole by an element pattern becomes the prefix, the captured content and the suffix |
| Markdown.LinkMatched | script.js:536 | an anchor `<a href="v">x</a>`, with `v` free of `"` and `>` and not ending in `=`, and `x` free of `<` and line terminators, is matched whole by the link pattern |
| Markdown.LinkRendered | script.js:536 | the link pass turns such an anchor into `[x](v)` |
| Markdown.ImageMatched | script.js:539 | an image `<img src="v" alt="x">`, with `v` and `x` free of `"` and `>` and not ending in `=`, is matched whole by the image pattern with `alt` |
| Markdown.ImageRendered | script.js:539 | the image pass turns such an image into `![x](v)` |
| Patterns.Backtracked | script.js:536-540 | models `<a` or `<img` followed by a `[^>]*` that gives characters back to reach `href="` or `src="`; `Markdown.LinkMatched` and `Markdown.ImageMatched` describe what it matches |
| Patterns.Latest | script.js:536-540 | models the greedy choice of the latest `href="`, `src="` or `alt="` after which the rest of the pattern matches; `Markdown.LinkMatched` and `Markdown.ImageMatched` describe it |
| Patterns.Finish | script.js:536-540 | models the rest of the link and image patterns after the attribute value; `Markdown.LinkRendered` and `Markdown.ImageRendered` describe it |
| Markdown.BulletItem | script.js:543-545 | inside a `<ul>` an item becomes `- ` followed by its text and a newline |
| Markdown.NumberedItemLosesText | script.js:547-552 | inside an `<ol>` an item becomes its number followed by the literal `. $1`, whatever it held |
| Markdown.Lists | script.js:543-552 | models the `<ul>` pass and then the `<ol>` pass; `BulletItem` and `NumberedItemLosesText` describe one item of each |
| Markdown.BulletListAt | script.js:543-545 | models the callback that rewrites the items of one `<ul>`; `BulletItem` describes it |
| Markdown.NumberedListAt | script.js:547-552 | models the callback that rewrites the items of one `<ol>`; `NumberedItemLosesText` describes it |
| Markdown.Numbered | script.js:549-551 | models the counter-driven item replacement; `NumberedItemLosesText` describes it |
| Markdown.LongerTagsTaken | script.js:524-531 | `<b[^>]*>` matches every `<body…>` opening tag and `<p[^>]*>` every `<pre…>` opening tag, each to the same end |
| PathOrder.BelowTotal | script.js:451 | any two different paths are ordered one way or the other |
| PathOrder.BelowTransitive | script.js:451 | the path order is transitive |
| PathOrder.BelowAsymmetric | script.js:451 | the path order is asymmetric |
| PathOrder.SortSorted | script.js:451 | the reference sort returns its input's paths, each as often, in ascending code-unit order |
| PathOrder.SortIsTheSort | script.js:451 | any ascending arrangement of distinct paths equals the reference sort, so modelling `sort()` by it loses nothing |
| Epub.Lookup | script.js:425 | `zip.file(path)` is the content of a non-directory entry with that path, and is absent when no entry has the path |
| Epub.LookupFile | script.js:458 | with distinct paths, looking up a file's path gives exactly that file's content |
| Epub.Files | script.js:203 | the entries the loops visit are exactly the non-directory ones |
| Epub.Processed | script.js:211-234 | a processed entry keeps its path and is a file |
| Epub.ProcessEpubContent | script.js:194-238 | the new archive is `ProcessedArchive(entries)`: one processed entry per file, in order; both counters equal the number of pages |
| Epub.ProcessedArchive | script.js:194-238 | models the new archive; `ArchiveIsFiles`, `ArchiveHasFiles`, `ArchiveOnlyFiles`, `ArchivePathsOnce`, `PageRewritten`, `SheetRewritten` and `OtherCopied` describe it |
| Epub.ArchiveIsFiles | script.js:210-235 | the new archive has one entry per file of the old one, position by position, each the processed file |
| Epub.ArchiveHasFiles | script.js:210-235 | every file of the old archive appears processed in the new one |
| Epub.ArchiveOnlyFiles | script.js:210-235 | every entry of the new archive is a file with the path of a file of the old one |
| Epub.ArchivePathsOnce | script.js:210-235 | with distinct input paths every path occurs once in the new archive |
| Epub.PageRewritten | script.js:214-218 | a `.html`/`.xhtml` entry (any case) holds the processed page: the converted, horizontal page with both blocks at its anchor |
| Epub.SheetRewritten | script.js:224-228 | a `.css` entry holds its converted, stripped content followed by the fixed block, and the line height occurs in it |
| Epub.OtherCopied | script.js:230-233 | every other file is copied unchanged |
| Epub.ContainerOpf | script.js:483-490 | the container's answer ends in `.opf` (any case), holds no `"`, and is absent without a container file |
| Epub.ContainerNames | script.js:483-490 | a container whose first `full-path` match is the attribute `full-path="v"` gives `v`, and so does the package lookup |
| Epub.ContainerSilent | script.js:483-490 | the container gives no answer exactly when there is no container file or the pattern matches nowhere in it |
| Epub.LastOpf | script.js:496-503 | the fallback is absent exactly when no file ends in `.opf`, and is otherwise the path of the last such file |
| Epub.FindOpfFile | script.js:480-504 | the loop's result is the container's answer, else the last `.opf` file |
| Epub.OpfFileFound | script.js:480-504 | a found package path ends in `.opf`; none is found exactly when the container gives none and no file ends in `.opf` |
| Epub.OpfFile | script.js:480-504 | models the package lookup; `OpfFileFound`, `ContainerNames`, `ContainerSilent` and `LastOpf` describe it |
| Epub.TitleIn | script.js:426-428 | an extracted title holds no `<` and neither starts nor ends with white space |
| Epub.TitleFound | script.js:426-428 | a descriptor whose first title match is `<dc:title attrs>x</dc:title>` gives the title `x` trimmed |
| Epub.TitleAbsent | script.js:426-428 | a descriptor gives no title exactly when the title pattern matches nowhere in it |
| Epub.Title | script.js:419-433 | the title is the default `轉換的電子書` or an extracted title without `<` |
| Epub.TitleFromDescriptor | script.js:419-433 | when the package file can be read and its first title match holds `x`, the book's title is `x` trimmed |
| Epub.TitleDefault | script.js:419-433 | the default title is used when no package file is found, when it cannot be read, or when no title matches in it |
| Epub.BookTitle | script.js:419-433 | the method's title is `Title(entries)` |
| Epub.PagePaths | script.js:443-448 | the collected paths are exactly those of the page files |
| Epub.CollectPages | script.js:443-448 | the method's loop collects `PagePaths(entries)` |
| Epub.PagePathsDistinct | script.js:443-448 | with distinct entry paths no page path is collected twice |
| Epub.ChapterPages | script.js:442-458 | the sorted paths are ascending and distinct, include every page, and each names a page whose Markdown can be read |
| Epub.BlankPageSkipped | script.js:462-466 | a chapter is written exactly when the page's Markdown is not blank |
| Epub.SectionsAfter | script.js:453-470 | the loop only appends: the text before it stays a prefix |
| Epub.AppendChapters | script.js:453-470 | the loop appends `Sections(text, entries, htmlFiles)`, one chapter (possibly empty) per sorted path |
| Epub.BookShape | script.js:435-473 | the book starts with the title header and ends with the completion footer |
| Epub.ConvertToMarkdown | script.js:415-478 | the Markdown is `Book(entries)`: header, chapters in sorted path order, footer |
| Epub.Book | script.js:415-478 | models the whole Markdown text; `BookShape`, `TitleFromDescriptor`, `TitleDefault` and `ChapterPages` describe it |
| Epub.Sections | script.js:453-470 | models the chapter loop; `SectionsAfter` and `ChapterPages` describe it |
| Epub.Chapter | script.js:462-466 | models one chapter; `BlankPageSkipped` describes it |
| Epub.PageMarkdown | script.js:458-460 | models reading, processing and rendering one page; `ChapterPages` describes it |

## Left out

- DOM and UI code is not modelled: element lookup, events, drag and drop, progress
  display, result display, download, reset and the browser-support check. It changes
  nothing that the pipeline computes.
- JSZip I/O is not modelled: `loadAsync`, `file.async`, `generateAsync` and the `Blob`.
  The archive is modelled as the sequence of its entries. Every entry's content is one
  string, so the model does not distinguish the UTF-8 decoding of `async('text')` from an
  `arraybuffer` copy.
- The output archive is modelled as the sequence of files written. The folder entries
  JSZip adds on its own for nested paths are not modelled.
- OpenCC is an external converter and is treated as absent, so the fallback table is
  always used.
- Progress percentages and `formatFileSize` use floating point and are not modelled.
  `processedCount` is modelled only as a counter.
- The completion time (`toLocaleString`) is not deterministic. It is the parameter
  `stamp`.
- `async`/`await` is only sequencing here, so every call is modelled as synchronous.
- Reading an entry (`file.async`) is assumed to succeed. A read can reject, and in
  `processEpubContent` (script.js:216, 226, 232) no `try` catches it, so such a failure
  is not modelled. Inside the `try` blocks of `findOpfFile` and `convertToMarkdown` the
  model covers one failure: `zip.file(path)` being null. It is modelled as `Lookup`
  returning `None`, which gives the default title, the fallback search or a skipped
  chapter.
- A `$` in the configured line height would be read as a replacement pattern by
  `replace`. The members that insert it therefore require `'$' !in lineHeight`. This is
  an assumption about the caller: `handleLineHeightChange` (script.js:116) stores the
  select's value without checking it.
- `toLowerCase().endsWith(…)` is modelled as an ASCII case-insensitive suffix test.
  For the suffixes used this is exact. Only U+0130 and U+212A (the Kelvin sign) lower-case
  to ASCII letters, `i` and `k`, and neither letter occurs in `.html`, `.xhtml`, `.css`
  or `.opf`.
- `Object.entries` lists integer-like keys first. The model visits entries in archive
  order, which differs only for numeric file names.
- `Array.prototype.sort` is modelled by its result: `PathOrder.Sort` is a reference
  insertion sort, and `PathOrder.SortIsTheSort` shows that any ascending order of
  distinct paths equals it.
- Restyle.StripVertical: the model does not claim that no vertical declaration survives.
  For the code as written that is false, because a removal can join text around it into
  a new match. `Restyle.RemovalRejoins` proves this for
  `writing-mode: vwriting-mode: vertical;ertical;`, which becomes `writing-mode: vertical;`.
- Markdown.BulletItem, Markdown.NumberedItemLosesText: list rewriting is stated for a
  single item. Whole lists are modelled, but no lemma describes a list of several items.
- Markdown.WrappedMatched, Markdown.ElementRendered: the element lemmas cover content
  with no `<` and no line terminator, and attributes with no `>`. Other content is
  modelled but not described by a lemma.
- Markdown.LinkRendered, Markdown.ImageRendered: a single element is described, with
  attribute values free of `"` and `>` that do not end in `=`, and link text free of `<`
  and line terminators. The second image pass (script.js:540), for images without `alt`,
  is modelled but not described by a lemma.
- Restyle.HorizontalBothTags: covers lower-case `<html` and `<body` tags with the body
  tag after the html tag. Other cases are modelled and described pass by pass.
- Markdown.HtmlToMarkdown: states the final result's shape. It states nothing about how
  the text of individual elements survives the whole chain.
- Epub.ChapterPages: states that each sorted path has readable Markdown. It does not
  describe the Markdown of a page beyond `Epub.BlankPageSkipped`.
