/** The archive-level steps: every entry rewritten by its kind (`processEpubContent`), the
    package descriptor located (`findOpfFile`), and the Markdown book assembled from the
    pages in path order (`convertToMarkdown`). An archive is its sequence of entries in
    the order the archive library lists them. */
module Epub {
  import opened Strings
  import opened Patterns
  import opened Restyle
  import opened Markdown
  import opened PathOrder
  import ScriptConversion

  /** One member of the archive: its path, whether it is a folder, and its text. */
  datatype Entry = Entry(path: string, dir: bool, content: string)

  /** The archive is a dictionary keyed by path: no two entries share one. */
  predicate UniquePaths(entries: seq<Entry>) {
    forall i, j :: 0 <= i < j < |entries| ==> entries[i].path != entries[j].path
  }

  /** `path.toLowerCase().endsWith('.html') || ….endsWith('.xhtml')`. */
  predicate IsHtml(path: string) {
    EndsWithCi(path, ".html") || EndsWithCi(path, ".xhtml")
  }

  predicate IsCss(path: string) {
    EndsWithCi(path, ".css")
  }

  /** `zip.file(path)`: the text of the entry stored under `path`, or nothing when there
      is none or it is a folder. */
  function Lookup(entries: seq<Entry>, path: string): (r: Option<string>)
    ensures r.Some? ==> exists i :: (0 <= i < |entries| && entries[i].path == path
      && !entries[i].dir && entries[i].content == r.value)
    ensures (forall i :: 0 <= i < |entries| ==> entries[i].path != path) ==> r.None?
  {
    if entries == [] then None
    else if entries[0].path == path then (if entries[0].dir then None else Some(entries[0].content))
    else
      var r := Lookup(entries[1..], path);
      assert r.Some? ==> exists i :: (0 < i < |entries| && entries[i].path == path
        && !entries[i].dir && entries[i].content == r.value) by {
        if r.Some? {
          var i :| 0 <= i < |entries[1..]| && entries[1..][i].path == path
            && !entries[1..][i].dir && entries[1..][i].content == r.value;
          assert entries[i + 1] == entries[1..][i];
        }
      }
      r
  }

  /** In an archive, every file can be read back under its path. */
  lemma {:induction false} LookupFile(entries: seq<Entry>, i: nat)
    requires UniquePaths(entries) && i < |entries| && !entries[i].dir
    ensures Lookup(entries, entries[i].path) == Some(entries[i].content)
    decreases i
  {
    if i > 0 {
      var t := entries[1..];
      assert UniquePaths(t) by {
        forall p, q | 0 <= p < q < |t| ensures t[p].path != t[q].path {
          assert t[p] == entries[p + 1] && t[q] == entries[q + 1];
        }
      }
      assert t[i - 1] == entries[i];
      LookupFile(t, i - 1);
    }
  }

  /** The files of the archive, folders left out, order kept. */
  function Files(entries: seq<Entry>): (r: seq<Entry>)
    ensures forall e :: e in r <==> e in entries && !e.dir
  {
    if entries == [] then []
    else
      var n := |entries| - 1;
      assert entries == entries[..n] + [entries[n]];
      Files(entries[..n]) + (if entries[n].dir then [] else [entries[n]])
  }

  // ---------------------------------------------------------------------------
  // processEpubContent

  /** What the dispatcher writes for one file: pages through the markup rewriter,
      stylesheets through the stylesheet rewriter, anything else as it was. */
  function Processed(e: Entry, lineHeight: string): (r: Entry)
    requires '$' !in lineHeight
    ensures r.path == e.path && !r.dir
  {
    Entry(e.path, false,
      if IsHtml(e.path) then ProcessHtmlContent(e.content, lineHeight)
      else if IsCss(e.path) then ProcessCssContent(e.content, lineHeight)
      else e.content)
  }

  /** The rewritten archive: one processed entry per file, folders dropped, order kept. */
  function ProcessedArchive(entries: seq<Entry>, lineHeight: string): seq<Entry>
    requires '$' !in lineHeight
  {
    if entries == [] then []
    else
      var e := entries[|entries| - 1];
      ProcessedArchive(entries[..|entries| - 1], lineHeight) + (if e.dir then [] else [Processed(e, lineHeight)])
  }

  /** The number of pages in the archive. */
  function PageCount(entries: seq<Entry>): nat {
    if entries == [] then 0
    else
      var e := entries[|entries| - 1];
      PageCount(entries[..|entries| - 1]) + (if !e.dir && IsHtml(e.path) then 1 else 0)
  }

  /** One more entry of the input adds its processed form, unless it is a folder. */
  lemma ArchiveStep(entries: seq<Entry>, i: nat, lineHeight: string)
    requires '$' !in lineHeight && i < |entries|
    ensures ProcessedArchive(entries[..i + 1], lineHeight) == ProcessedArchive(entries[..i], lineHeight)
      + (if entries[i].dir then [] else [Processed(entries[i], lineHeight)])
    ensures PageCount(entries[..i + 1]) == PageCount(entries[..i])
      + (if !entries[i].dir && IsHtml(entries[i].path) then 1 else 0)
  {
    PrefixStep(entries, i);
  }

  /** `processEpubContent`: a first pass counts the pages, a second writes every file
      into the new archive, rewritten according to its kind. */
  method ProcessEpubContent(entries: seq<Entry>, lineHeight: string)
    returns (processed: seq<Entry>, htmlFileCount: nat, processedCount: nat)
    requires '$' !in lineHeight
    ensures processed == ProcessedArchive(entries, lineHeight)
    ensures htmlFileCount == PageCount(entries) && processedCount == htmlFileCount
  {
    htmlFileCount := 0;
    for i := 0 to |entries|
      invariant htmlFileCount == PageCount(entries[..i])
    {
      PrefixStep(entries, i);
      if !entries[i].dir && IsHtml(entries[i].path) {
        htmlFileCount := htmlFileCount + 1;
      }
    }
    assert entries[..|entries|] == entries;
    processed := [];
    processedCount := 0;
    for i := 0 to |entries|
      invariant processed == ProcessedArchive(entries[..i], lineHeight)
      invariant processedCount == PageCount(entries[..i])
    {
      ArchiveStep(entries, i, lineHeight);
      var e := entries[i];
      if !e.dir {
        if IsHtml(e.path) {
          var content := ProcessHtmlContent(e.content, lineHeight);
          processed := processed + [Entry(e.path, false, content)];
          processedCount := processedCount + 1;
        } else if IsCss(e.path) {
          var content := ProcessCssContent(e.content, lineHeight);
          processed := processed + [Entry(e.path, false, content)];
        } else {
          processed := processed + [Entry(e.path, false, e.content)];
        }
      }
    }
  }

  /** The rewritten archive is the files of the input, each processed, in their order. */
  lemma {:induction false} ArchiveIsFiles(entries: seq<Entry>, lineHeight: string)
    requires '$' !in lineHeight
    ensures var r := ProcessedArchive(entries, lineHeight);
      && |r| == |Files(entries)|
      && forall k :: 0 <= k < |r| ==> r[k] == Processed(Files(entries)[k], lineHeight)
    decreases |entries|
  {
    if entries != [] {
      var n := |entries| - 1;
      ArchiveIsFiles(entries[..n], lineHeight);
      var r0 := ProcessedArchive(entries[..n], lineHeight);
      var f0 := Files(entries[..n]);
      var r := ProcessedArchive(entries, lineHeight);
      var f := Files(entries);
      assert r == r0 + (if entries[n].dir then [] else [Processed(entries[n], lineHeight)]);
      assert f == f0 + (if entries[n].dir then [] else [entries[n]]);
      forall k | 0 <= k < |r| ensures r[k] == Processed(f[k], lineHeight) {
        if k < |r0| { assert r[k] == r0[k] && f[k] == f0[k]; }
      }
    }
  }

  /** Files keep their distinct paths; with `ArchiveIsFiles`, every file path of the input
      appears exactly once in the rewritten archive, and no other path does. */
  lemma {:induction false} FilesUnique(entries: seq<Entry>)
    requires UniquePaths(entries)
    ensures UniquePaths(Files(entries))
    decreases |entries|
  {
    if entries != [] {
      var n := |entries| - 1;
      var init := entries[..n];
      assert UniquePaths(init) by {
        forall p, q | 0 <= p < q < |init| ensures init[p].path != init[q].path {
          assert init[p] == entries[p] && init[q] == entries[q];
        }
      }
      FilesUnique(init);
      var f0 := Files(init);
      var f := Files(entries);
      if !entries[n].dir {
        assert f == f0 + [entries[n]];
        forall p, q | 0 <= p < q < |f| ensures f[p].path != f[q].path {
          if q < |f0| {
            assert f[p] == f0[p] && f[q] == f0[q];
          } else {
            assert f[p] == f0[p] && f0[p] in init;
            var i :| 0 <= i < n && init[i] == f0[p];
            assert entries[i] == init[i];
          }
        }
      }
    }
  }

  /** Every file of the input reaches the rewritten archive, processed. */
  lemma ArchiveHasFiles(entries: seq<Entry>, lineHeight: string)
    requires '$' !in lineHeight
    ensures forall e :: e in entries && !e.dir ==> Processed(e, lineHeight) in ProcessedArchive(entries, lineHeight)
  {
    ArchiveIsFiles(entries, lineHeight);
    var r := ProcessedArchive(entries, lineHeight);
    var f := Files(entries);
    forall e | e in entries && !e.dir ensures Processed(e, lineHeight) in r {
      assert e in f;
      var k :| 0 <= k < |f| && f[k] == e;
      assert r[k] == Processed(e, lineHeight);
    }
  }

  /** Nothing else does: every entry of the rewritten archive is a file, stored under
      the path of a file of the input. */
  lemma ArchiveOnlyFiles(entries: seq<Entry>, lineHeight: string)
    requires '$' !in lineHeight
    ensures forall x :: x in ProcessedArchive(entries, lineHeight) ==>
      !x.dir && exists e :: e in entries && !e.dir && e.path == x.path
  {
    ArchiveIsFiles(entries, lineHeight);
    var r := ProcessedArchive(entries, lineHeight);
    var f := Files(entries);
    forall x | x in r ensures !x.dir && exists e :: e in entries && !e.dir && e.path == x.path {
      var k :| 0 <= k < |r| && r[k] == x;
      assert f[k] in f;
    }
  }

  /** And no two entries of the rewritten archive share a path: each file path of the
      input appears exactly once. */
  lemma ArchivePathsOnce(entries: seq<Entry>, lineHeight: string)
    requires '$' !in lineHeight && UniquePaths(entries)
    ensures UniquePaths(ProcessedArchive(entries, lineHeight))
  {
    ArchiveIsFiles(entries, lineHeight);
    FilesUnique(entries);
    var r := ProcessedArchive(entries, lineHeight);
    var f := Files(entries);
    forall p, q | 0 <= p < q < |r| ensures r[p].path != r[q].path {
      assert r[p].path == f[p].path && r[q].path == f[q].path;
    }
  }

  /** A page becomes the converted, horizontal page with the font block and then the
      line-height block spliced in at its anchor, or both blocks in front when it has
      none. */
  lemma PageRewritten(e: Entry, lineHeight: string)
    requires '$' !in lineHeight && IsHtml(e.path)
    ensures var (t, c) := (ConvertToHorizontal(ScriptConversion.Convert(e.content)), Processed(e, lineHeight).content);
      match Anchor(t)
      case Some(k) => c == t[..k] + FontStyle + LineHeightStyle(lineHeight) + t[k..]
      case None => c == LineHeightStyle(lineHeight) + FontStyle + t
  {
    ProcessHtmlShape(e.content, lineHeight);
  }

  /** A stylesheet becomes the converted sheet without its vertical declarations,
      followed by the fixed rules, which carry the line height. */
  lemma SheetRewritten(e: Entry, lineHeight: string)
    requires '$' !in lineHeight && !IsHtml(e.path) && IsCss(e.path)
    ensures var (t, c) := (StripVertical(ScriptConversion.Convert(e.content)), Processed(e, lineHeight).content);
      |c| >= |t| && c[..|t|] == t && c[|t|..] == CssRules(lineHeight) && Occurs(lineHeight, c)
  {
    ModifyCssSpec(ScriptConversion.Convert(e.content), lineHeight);
  }

  /** Any other file is copied as it was. */
  lemma OtherCopied(e: Entry, lineHeight: string)
    requires '$' !in lineHeight && !IsHtml(e.path) && !IsCss(e.path) && !e.dir
    ensures Processed(e, lineHeight) == e
  {
  }

  // ---------------------------------------------------------------------------
  // findOpfFile

  const ContainerPath := "META-INF/container.xml"

  /** The `full-path` that the container file names, when it ends in `.opf`. */
  function ContainerOpf(entries: seq<Entry>): (r: Option<string>)
    ensures r.Some? ==> EndsWithCi(r.value, ".opf") && |r.value| >= 5
    ensures r.Some? ==> forall i :: 0 <= i < |r.value| ==> r.value[i] != '"'
    ensures Lookup(entries, ContainerPath).None? ==> r.None?
  {
    match Lookup(entries, ContainerPath)
    case None => None
    case Some(container) =>
      match FirstHit(Of(FullPath), container, 0)
      case None => None
      case Some(m) => Some(m.1.text)
  }

  /** A file of the archive whose path ends in `.opf`, letters compared without case. */
  predicate IsOpf(e: Entry) {
    !e.dir && EndsWithCi(e.path, ".opf")
  }

  /** The path of the last `.opf` file in archive order. */
  function LastOpf(entries: seq<Entry>): (r: Option<string>)
    ensures r.None? <==> forall i :: 0 <= i < |entries| ==> !IsOpf(entries[i])
    ensures r.Some? ==> exists i :: (0 <= i < |entries| && IsOpf(entries[i]) && entries[i].path == r.value
      && forall j :: i < j < |entries| ==> !IsOpf(entries[j]))
  {
    if entries == [] then None
    else
      var n := |entries| - 1;
      if IsOpf(entries[n]) then Some(entries[n].path)
      else
        var r := LastOpf(entries[..n]);
        assert forall i :: 0 <= i < n ==> entries[..n][i] == entries[i];
        r
  }

  /** Where the package descriptor is: the container's answer, else the last `.opf`. */
  function OpfFile(entries: seq<Entry>): Option<string> {
    if ContainerOpf(entries).Some? then ContainerOpf(entries) else LastOpf(entries)
  }

  /** `findOpfFile`: ask the container file; failing that, walk the archive and keep the
      last `.opf` file seen. */
  method FindOpfFile(entries: seq<Entry>) returns (opfFile: Option<string>)
    ensures opfFile == OpfFile(entries)
  {
    var containerFile := Lookup(entries, ContainerPath);
    if containerFile.Some? {
      var opfMatch := FirstHit(Of(FullPath), containerFile.value, 0);
      if opfMatch.Some? {
        return Some(opfMatch.value.1.text);
      }
    }
    opfFile := None;
    for i := 0 to |entries|
      invariant opfFile == LastOpf(entries[..i])
    {
      PrefixStep(entries, i);
      if !entries[i].dir && EndsWithCi(entries[i].path, ".opf") {
        opfFile := Some(entries[i].path);
      }
    }
    assert entries[..|entries|] == entries;
  }

  /** The descriptor found always ends in `.opf`, and is absent only when the container
      names none and the archive holds no `.opf` file. */
  lemma OpfFileFound(entries: seq<Entry>)
    ensures OpfFile(entries).Some? ==> EndsWithCi(OpfFile(entries).value, ".opf")
    ensures OpfFile(entries).None? <==> ContainerOpf(entries).None? && forall i :: 0 <= i < |entries| ==> !IsOpf(entries[i])
  {
    if ContainerOpf(entries).None? && LastOpf(entries).Some? {
      var i :| 0 <= i < |entries| && IsOpf(entries[i]) && entries[i].path == LastOpf(entries).value
        && forall j :: i < j < |entries| ==> !IsOpf(entries[j]);
    }
  }

  /** A container whose first `full-path` attribute names `v` sends the lookup to `v`. */
  lemma ContainerNames(entries: seq<Entry>, u: string, v: string, w: string)
    requires Lookup(entries, ContainerPath) == Some(u + FullPathAttribute(v) + w)
    requires forall i :: 0 <= i < |v| ==> v[i] != '"'
    requires |v| >= 5 && EndsWithCi(v, ".opf")
    requires Clear(Of(FullPath), u + FullPathAttribute(v) + w, 0, |u|)
    ensures ContainerOpf(entries) == Some(v)
    ensures OpfFile(entries) == Some(v)
  {
    var c := u + FullPathAttribute(v) + w;
    FullPathMatch(u, v, w);
    HitAtOf(FullPath, c, |u|);
    FirstHitIs(Of(FullPath), c, 0, |u|);
  }

  /** The container answers nothing exactly when it is missing or the pattern matches
      nowhere in it. */
  lemma ContainerSilent(entries: seq<Entry>)
    ensures ContainerOpf(entries).None? <==>
      Lookup(entries, ContainerPath).None? || NoMatch(FullPath, Lookup(entries, ContainerPath).value)
  {
    if Lookup(entries, ContainerPath).Some? {
      var c := Lookup(entries, ContainerPath).value;
      forall q | 0 <= q < |c| ensures HitAt(Of(FullPath), c, q) == Match(FullPath, c, q) {
        HitAtOf(FullPath, c, q);
      }
    }
  }

  // ---------------------------------------------------------------------------
  // convertToMarkdown

  const DefaultTitle := "轉換的電子書"

  /** The trimmed text of the first `dc:title` element of a package descriptor. */
  function TitleIn(opf: string): (r: Option<string>)
    ensures r.Some? ==> '<' !in r.value
    ensures r.Some? && r.value != [] ==> !IsSpace(r.value[0]) && !IsSpace(r.value[|r.value| - 1])
  {
    match FirstHit(Of(DcTitle), opf, 0)
    case None => None
    case Some(m) =>
      TrimWithout(m.1.text, '<');
      Some(Trim(m.1.text))
  }

  /** The book title: from the package descriptor when it can be read and has a title. */
  function Title(entries: seq<Entry>): (r: string)
    ensures r == DefaultTitle || '<' !in r
  {
    match OpfFile(entries)
    case None => DefaultTitle
    case Some(opf) =>
      match Lookup(entries, opf)
      case None => DefaultTitle
      case Some(content) =>
        match TitleIn(content)
        case None => DefaultTitle
        case Some(t) => t
  }

  /** The title read from a descriptor whose first `dc:title` element holds `x`. */
  lemma TitleFound(u: string, attrs: string, x: string, w: string)
    requires forall i :: 0 <= i < |attrs| ==> attrs[i] != '>'
    requires x != [] && forall i :: 0 <= i < |x| ==> x[i] != '<'
    requires Clear(Of(DcTitle), u + DcTitleElement(attrs, x) + w, 0, |u|)
    ensures TitleIn(u + DcTitleElement(attrs, x) + w) == Some(Trim(x))
  {
    var s := u + DcTitleElement(attrs, x) + w;
    DcTitleText(u, attrs, x, w);
    DcTitleMatch(u, attrs, x, w);
    HitAtOf(DcTitle, s, |u|);
    FirstHitIs(Of(DcTitle), s, 0, |u|);
  }

  /** A descriptor has no title exactly when the title pattern matches nowhere in it. */
  lemma TitleAbsent(opf: string)
    ensures TitleIn(opf).None? <==> NoMatch(DcTitle, opf)
  {
    forall q | 0 <= q < |opf| ensures HitAt(Of(DcTitle), opf, q) == Match(DcTitle, opf, q) {
      HitAtOf(DcTitle, opf, q);
    }
  }

  /** The book is titled by the first `dc:title` element of the descriptor it names. */
  lemma TitleFromDescriptor(entries: seq<Entry>, path: string, u: string, attrs: string, x: string, w: string)
    requires OpfFile(entries) == Some(path)
    requires Lookup(entries, path) == Some(u + DcTitleElement(attrs, x) + w)
    requires forall i :: 0 <= i < |attrs| ==> attrs[i] != '>'
    requires x != [] && forall i :: 0 <= i < |x| ==> x[i] != '<'
    requires Clear(Of(DcTitle), u + DcTitleElement(attrs, x) + w, 0, |u|)
    ensures Title(entries) == Trim(x)
  {
    TitleFound(u, attrs, x, w);
  }

  /** The default title is used when there is no descriptor, it cannot be read, or it
      holds no title element. */
  lemma TitleDefault(entries: seq<Entry>)
    ensures OpfFile(entries).None? ==> Title(entries) == DefaultTitle
    ensures OpfFile(entries).Some? && Lookup(entries, OpfFile(entries).value).None? ==> Title(entries) == DefaultTitle
    ensures (OpfFile(entries).Some? && Lookup(entries, OpfFile(entries).value).Some?
      && NoMatch(DcTitle, Lookup(entries, OpfFile(entries).value).value)) ==> Title(entries) == DefaultTitle
  {
    if OpfFile(entries).Some? && Lookup(entries, OpfFile(entries).value).Some? {
      TitleAbsent(Lookup(entries, OpfFile(entries).value).value);
    }
  }

  /** The paths of the pages, in archive order: what the `forEach` pushes. */
  function PagePaths(entries: seq<Entry>): (r: seq<string>)
    ensures forall k :: 0 <= k < |r| ==> exists i :: (0 <= i < |entries| && !entries[i].dir
      && IsHtml(entries[i].path) && entries[i].path == r[k])
    ensures forall i :: 0 <= i < |entries| && !entries[i].dir && IsHtml(entries[i].path) ==> entries[i].path in r
  {
    if entries == [] then []
    else
      var n := |entries| - 1;
      var e := entries[n];
      var r0 := PagePaths(entries[..n]);
      assert forall i :: 0 <= i < n ==> entries[..n][i] == entries[i];
      var r := r0 + (if !e.dir && IsHtml(e.path) then [e.path] else []);
      assert forall k :: 0 <= k < |r0| ==> r[k] == r0[k];
      assert forall k :: |r0| <= k < |r| ==> !entries[n].dir && IsHtml(entries[n].path) && entries[n].path == r[k];
      r
  }

  /** The body of the per-page `try`: the page stored under `path` read, processed and
      rendered as Markdown, or nothing when it cannot be read. */
  function PageMarkdown(entries: seq<Entry>, path: string, lineHeight: string): Option<string>
    requires '$' !in lineHeight
  {
    match Lookup(entries, path)
    case None => None
    case Some(content) => Some(HtmlToMarkdown(ProcessHtmlContent(content, lineHeight)))
  }

  /** The section for the page at index `i` of the sorted list: a numbered heading, the
      page's Markdown and a rule, or nothing for a blank or unreadable page. */
  function Chapter(i: nat, markdown: Option<string>): string {
    match markdown
    case None => []
    case Some(m) => if Trim(m) != [] then "## 章節 " + NatToString(i + 1) + "\n\n" + (m + "\n\n") + "---\n\n" else []
  }

  /** `text` followed by the sections of the pages at `paths`, numbered by their index. */
  function Sections(text: string, entries: seq<Entry>, paths: seq<string>, lineHeight: string): string
    requires '$' !in lineHeight
  {
    if paths == [] then text
    else
      var n := |paths| - 1;
      Sections(text, entries, paths[..n], lineHeight) + Chapter(n, PageMarkdown(entries, paths[n], lineHeight))
  }

  lemma SectionsStep(text: string, entries: seq<Entry>, paths: seq<string>, i: nat, lineHeight: string)
    requires '$' !in lineHeight && i < |paths|
    ensures Sections(text, entries, paths[..i + 1], lineHeight)
      == Sections(text, entries, paths[..i], lineHeight) + Chapter(i, PageMarkdown(entries, paths[i], lineHeight))
  {
    PrefixStep(paths, i);
  }

  function Header(title: string): string {
    "# " + title + "\n\n" + "> 由 EPUB 轉換器轉換為 Markdown 格式\n\n" + "---\n\n"
  }

  function Footer(stamp: string): string {
    "\n\n*轉換完成時間: " + stamp + "*\n"
  }

  /** The whole book: header, the sections of the pages sorted by path, footer. */
  function Book(entries: seq<Entry>, lineHeight: string, stamp: string): string
    requires '$' !in lineHeight
  {
    Sections(Header(Title(entries)), entries, Sort(PagePaths(entries)), lineHeight) + Footer(stamp)
  }

  /** A page gets a section exactly when its Markdown is not empty: `HtmlToMarkdown`
      already trims, so for its output `trim` adds nothing to the test. */
  lemma BlankPageSkipped(i: nat, markdown: string)
    requires markdown != [] ==> !IsSpace(markdown[0]) && !IsSpace(markdown[|markdown| - 1])
    ensures Chapter(i, Some(markdown)) == [] <==> markdown == []
  {
    TrimTrimmed(markdown);
  }

  /** The sections follow the text they are appended to. */
  lemma {:induction false} SectionsAfter(text: string, entries: seq<Entry>, paths: seq<string>, lineHeight: string)
    requires '$' !in lineHeight
    ensures |Sections(text, entries, paths, lineHeight)| >= |text|
    ensures Sections(text, entries, paths, lineHeight)[..|text|] == text
    decreases |paths|
  {
    if paths != [] {
      SectionsAfter(text, entries, paths[..|paths| - 1], lineHeight);
    }
  }

  /** The book opens with the header carrying its title and closes with the footer. */
  lemma BookShape(entries: seq<Entry>, lineHeight: string, stamp: string)
    requires '$' !in lineHeight
    ensures var b := Book(entries, lineHeight, stamp);
      && |b| >= |Header(Title(entries))| + |Footer(stamp)|
      && b[..|Header(Title(entries))|] == Header(Title(entries))
      && b[|b| - |Footer(stamp)|..] == Footer(stamp)
  {
    var h := Header(Title(entries));
    var c := Sections(h, entries, Sort(PagePaths(entries)), lineHeight);
    SectionsAfter(h, entries, Sort(PagePaths(entries)), lineHeight);
    assert (c + Footer(stamp))[..|h|] == c[..|h|];
  }

  /** The path of the last entry is not among the page paths before it. */
  lemma LastPathNew(entries: seq<Entry>)
    requires UniquePaths(entries) && entries != []
    ensures entries[|entries| - 1].path !in PagePaths(entries[..|entries| - 1])
  {
    var n := |entries| - 1;
    var init := entries[..n];
    var r0 := PagePaths(init);
    forall k | 0 <= k < |r0| ensures r0[k] != entries[n].path {
      var i :| 0 <= i < |init| && !init[i].dir && IsHtml(init[i].path) && init[i].path == r0[k];
      assert init[i] == entries[i];
    }
  }

  lemma {:induction false} PagePathsDistinct(entries: seq<Entry>)
    requires UniquePaths(entries)
    ensures Distinct(PagePaths(entries))
    decreases |entries|
  {
    if entries != [] {
      var n := |entries| - 1;
      var init := entries[..n];
      assert UniquePaths(init) by {
        forall p, q | 0 <= p < q < |init| ensures init[p].path != init[q].path {
          assert init[p] == entries[p] && init[q] == entries[q];
        }
      }
      PagePathsDistinct(init);
      var r0 := PagePaths(init);
      if !entries[n].dir && IsHtml(entries[n].path) {
        LastPathNew(entries);
        var r := r0 + [entries[n].path];
        assert PagePaths(entries) == r;
        forall p, q | 0 <= p < q < |r| ensures r[p] != r[q] {
          if q < |r0| {
            assert r[p] == r0[p] && r[q] == r0[q];
          } else {
            assert r[p] == r0[p] && r0[p] in r0;
          }
        }
      }
    }
  }

  /** The chapters are the pages, each once, in ascending path order, and every one of
      them can be read, so no chapter is lost to a failed read. */
  lemma ChapterPages(entries: seq<Entry>, lineHeight: string)
    requires '$' !in lineHeight && UniquePaths(entries)
    ensures var paths := Sort(PagePaths(entries));
      && Sorted(paths) && Distinct(paths)
      && (forall i :: 0 <= i < |entries| && !entries[i].dir && IsHtml(entries[i].path) ==> entries[i].path in paths)
      && (forall k :: 0 <= k < |paths| ==> PageMarkdown(entries, paths[k], lineHeight).Some?)
  {
    var pages := PagePaths(entries);
    var paths := Sort(pages);
    SortSorted(pages);
    PagePathsDistinct(entries);
    DistinctPermuted(pages, paths);
    forall i | 0 <= i < |entries| && !entries[i].dir && IsHtml(entries[i].path) ensures entries[i].path in paths {
      assert entries[i].path in multiset(pages);
    }
    forall k | 0 <= k < |paths| ensures PageMarkdown(entries, paths[k], lineHeight).Some? {
      assert paths[k] in multiset(pages);
      var j :| 0 <= j < |pages| && pages[j] == paths[k];
      var i :| 0 <= i < |entries| && !entries[i].dir && IsHtml(entries[i].path) && entries[i].path == pages[j];
      LookupFile(entries, i);
    }
  }

  /** The title block of `convertToMarkdown`: the descriptor's first `dc:title`, trimmed,
      or the default when there is no descriptor, it cannot be read, or it has no title. */
  method BookTitle(entries: seq<Entry>) returns (title: string)
    ensures title == Title(entries)
  {
    title := DefaultTitle;
    var opfFile := FindOpfFile(entries);
    if opfFile.Some? {
      var opfContent := Lookup(entries, opfFile.value);
      if opfContent.Some? {
        var titleMatch := FirstHit(Of(DcTitle), opfContent.value, 0);
        if titleMatch.Some? {
          title := Trim(titleMatch.value.1.text);
        }
      }
    }
  }

  /** The `forEach` that collects the paths of the pages. */
  method CollectPages(entries: seq<Entry>) returns (htmlFiles: seq<string>)
    ensures htmlFiles == PagePaths(entries)
  {
    htmlFiles := [];
    for i := 0 to |entries|
      invariant htmlFiles == PagePaths(entries[..i])
    {
      PrefixStep(entries, i);
      if !entries[i].dir && IsHtml(entries[i].path) {
        htmlFiles := htmlFiles + [entries[i].path];
      }
    }
    assert entries[..|entries|] == entries;
  }

  /** The chapter loop of `convertToMarkdown`: after `text`, one section per page of
      `htmlFiles` whose Markdown is not blank, numbered by the page's index. */
  method AppendChapters(text: string, entries: seq<Entry>, htmlFiles: seq<string>, lineHeight: string)
    returns (markdownContent: string)
    requires '$' !in lineHeight
    ensures markdownContent == Sections(text, entries, htmlFiles, lineHeight)
  {
    markdownContent := text;
    for i := 0 to |htmlFiles|
      invariant markdownContent == Sections(text, entries, htmlFiles[..i], lineHeight)
    {
      SectionsStep(text, entries, htmlFiles, i, lineHeight);
      var markdown := PageMarkdown(entries, htmlFiles[i], lineHeight);
      if markdown.Some? && Trim(markdown.value) != [] {
        markdownContent := markdownContent
          + ("## 章節 " + NatToString(i + 1) + "\n\n" + (markdown.value + "\n\n") + "---\n\n");
      }
    }
    assert htmlFiles[..|htmlFiles|] == htmlFiles;
  }

  /** `convertToMarkdown`, with the completion time passed in as `stamp`. */
  method ConvertToMarkdown(entries: seq<Entry>, lineHeight: string, stamp: string) returns (markdownContent: string)
    requires '$' !in lineHeight
    ensures markdownContent == Book(entries, lineHeight, stamp)
  {
    var title := BookTitle(entries);
    var htmlFiles := CollectPages(entries);
    htmlFiles := Sort(htmlFiles);
    markdownContent := AppendChapters(Header(title), entries, htmlFiles, lineHeight);
    markdownContent := markdownContent + Footer(stamp);
  }
}
