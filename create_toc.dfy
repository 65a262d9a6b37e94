/**
 * The table-of-contents script: the post-processing of OCR fragments, the
 * heading heuristic, the page loop that builds the page texts and the TOC
 * entries, and the text layout of the saved result.
 *
 * The OCR engine, the PDF reader and the file system are not modelled: a
 * page arrives as its OCR fragments and the text the PDF reader extracted
 * (if any), and `str.isupper` is a parameter.
 */
module CreateToc {
  import opened Wrappers
  import opened Strings

  // ---------------------------------------------------------------------------
  // postprocess_text
  // ---------------------------------------------------------------------------

  /** The correction table of `postprocess_text`, in the order its entries are applied. */
  const Corrections: seq<(char, char)> := [
    ('０', '0'), ('１', '1'), ('２', '2'), ('３', '3'), ('４', '4'),
    ('５', '5'), ('６', '6'), ('７', '7'), ('８', '8'), ('９', '9'),
    ('．', '.'), ('，', ','), ('：', ':'), ('；', ';'),
    ('（', '('), ('）', ')'), ('［', '['), ('］', ']'),
    ('｛', '{'), ('｝', '}'), ('＜', '<'), ('＞', '>'),
    ('\U{3000}', ' '), ('ー', '-'), ('～', '~')
  ]

  predicate IsAscii(c: char) { c <= '\U{7F}' }

  /** Every key lies outside ASCII and every replacement inside it, so no replacement is itself a key. */
  predicate AsciiReplacements(table: seq<(char, char)>) {
    forall k :: 0 <= k < |table| ==> !IsAscii(table[k].0) && IsAscii(table[k].1)
  }

  /** `table.get(c, c)`: the value of the first key equal to `c`, or `c` itself. */
  function Lookup(c: char, table: seq<(char, char)>): char {
    if table == [] then c
    else if table[0].0 == c then table[0].1
    else Lookup(c, table[1..])
  }

  /** What the replacements of `table`, applied in order, make of one character. */
  function CorrectChar(c: char, table: seq<(char, char)>): char
    decreases |table|
  {
    if table == [] then c
    else
      var d := CorrectChar(c, table[..|table| - 1]);
      if d == table[|table| - 1].0 then table[|table| - 1].1 else d
  }

  /**
   * `text.replace(wrong, correct)` for every entry of `table` in order: each
   * character is corrected on its own.
   */
  function ReplaceAll(s: string, table: seq<(char, char)>): (r: string)
    ensures |r| == |s|
    ensures forall i :: 0 <= i < |s| ==> r[i] == CorrectChar(s[i], table)
    decreases |table|
  {
    if table == [] then s
    else ReplaceChar(ReplaceAll(s, table[..|table| - 1]), table[|table| - 1].0, table[|table| - 1].1)
  }

  lemma {:induction false} LookupAppend(c: char, table: seq<(char, char)>, e: (char, char))
    ensures (exists k :: 0 <= k < |table| && table[k].0 == c) ==> Lookup(c, table + [e]) == Lookup(c, table)
    ensures (forall k :: 0 <= k < |table| ==> table[k].0 != c) ==>
              Lookup(c, table) == c && Lookup(c, table + [e]) == if e.0 == c then e.1 else c
  {
    if table != [] {
      assert (table + [e])[1..] == table[1..] + [e];
      LookupAppend(c, table[1..], e);
      if table[0].0 != c {
        forall k | 0 <= k < |table[1..]| ensures table[1..][k] == table[k + 1] { }
      }
    }
  }

  /**
   * With ASCII replacements the in-order replacement is a dictionary lookup:
   * each character becomes the value of its key, or stays as it is, and
   * what comes out is never a key.
   */
  lemma {:induction false} CorrectCharIsLookup(c: char, table: seq<(char, char)>)
    requires AsciiReplacements(table)
    ensures CorrectChar(c, table) == Lookup(c, table)
    ensures forall k :: 0 <= k < |table| ==> Lookup(c, table) != table[k].0
    decreases |table|
  {
    if table != [] {
      var init := table[..|table| - 1];
      var e := table[|table| - 1];
      assert table == init + [e];
      assert AsciiReplacements(init) by {
        forall k | 0 <= k < |init| ensures !IsAscii(init[k].0) && IsAscii(init[k].1) {
          assert init[k] == table[k];
        }
      }
      CorrectCharIsLookup(c, init);
      LookupAppend(c, init, e);
      assert !IsAscii(e.0) && IsAscii(e.1);
      if exists k :: 0 <= k < |init| && init[k].0 == c {
        var k :| 0 <= k < |init| && init[k].0 == c;
        LookupIsValue(c, init, k);
      }
      forall k | 0 <= k < |table| ensures Lookup(c, table) != table[k].0 {
        if k < |init| {
          assert table[k] == init[k];
        }
        assert !IsAscii(table[k].0);
      }
    }
  }

  /** A key found in the table is looked up to one of the table's values. */
  lemma {:induction false} LookupIsValue(c: char, table: seq<(char, char)>, k: nat)
    requires k < |table| && table[k].0 == c
    requires AsciiReplacements(table)
    ensures IsAscii(Lookup(c, table))
  {
    if table[0].0 != c {
      assert k > 0;
      assert AsciiReplacements(table[1..]) by {
        forall j | 0 <= j < |table[1..]| ensures !IsAscii(table[1..][j].0) && IsAscii(table[1..][j].1) {
          assert table[1..][j] == table[j + 1];
        }
      }
      LookupIsValue(c, table[1..], k - 1);
    }
  }

  /** A character that is no key is looked up to itself. */
  lemma {:induction false} LookupMissing(c: char, table: seq<(char, char)>)
    requires forall k :: 0 <= k < |table| ==> table[k].0 != c
    ensures Lookup(c, table) == c
  {
    if table != [] {
      assert forall k :: 0 <= k < |table[1..]| ==> table[1..][k] == table[k + 1];
      LookupMissing(c, table[1..]);
    }
  }

  lemma CorrectionsAreAscii()
    ensures AsciiReplacements(Corrections)
  {
    forall k | 0 <= k < |Corrections| ensures !IsAscii(Corrections[k].0) && IsAscii(Corrections[k].1) {
    }
  }

  /** No key of the correction table occurs in `s`. */
  predicate NoCorrectionKey(s: string) {
    forall k :: 0 <= k < |Corrections| ==> Corrections[k].0 !in s
  }

  /** `postprocess_text`: the corrections, then `re.sub(r'\s+', ' ', ...)`, then `strip()`. */
  function Postprocessed(text: string): string {
    Strip(CollapseWhitespace(ReplaceAll(text, Corrections)))
  }

  /** Stripping a collapsed text keeps it collapsed. */
  lemma StripKeepsCollapsed(s: string)
    requires OnlyPlainSpaces(s) && NoDoubleSpace(s)
    ensures OnlyPlainSpaces(Strip(s)) && NoDoubleSpace(Strip(s))
  {
    var t := StripStart(s);
    var r := StripEnd(t);
    var off := |s| - |t|;
    assert r == s[off..off + |r|];
    assert forall i :: 0 <= i < |r| ==> r[i] == s[off + i];
  }

  /** Correcting leaves no key of the table behind, and each character becomes its table value. */
  lemma CorrectedHasNoKey(s: string)
    ensures forall i :: 0 <= i < |s| ==> ReplaceAll(s, Corrections)[i] == Lookup(s[i], Corrections)
    ensures NoCorrectionKey(ReplaceAll(s, Corrections))
  {
    CorrectionsAreAscii();
    var r := ReplaceAll(s, Corrections);
    forall i | 0 <= i < |s|
      ensures r[i] == Lookup(s[i], Corrections)
      ensures forall k :: 0 <= k < |Corrections| ==> r[i] != Corrections[k].0
    {
      CorrectCharIsLookup(s[i], Corrections);
    }
  }

  /**
   * What `postprocess_text` promises: no key of the correction table is
   * left, there is no whitespace at either end, and the only whitespace is
   * single plain spaces.
   */
  lemma PostprocessedProperties(text: string)
    ensures NoCorrectionKey(Postprocessed(text))
    ensures Postprocessed(text) == [] || (!IsSpace(Postprocessed(text)[0]) && !IsSpace(Postprocessed(text)[|Postprocessed(text)| - 1]))
    ensures OnlyPlainSpaces(Postprocessed(text)) && NoDoubleSpace(Postprocessed(text))
  {
    var corrected := ReplaceAll(text, Corrections);
    var collapsed := CollapseWhitespace(corrected);
    CollapsedIsClean(corrected);
    CorrectedHasNoKey(text);
    CorrectionsAreAscii();
    forall k | 0 <= k < |Corrections| ensures Corrections[k].0 !in Postprocessed(text) {
      assert Corrections[k].0 !in corrected;
      assert Corrections[k].0 != ' ' by {
        assert !IsAscii(Corrections[k].0);
      }
      assert Corrections[k].0 !in collapsed;
    }
    StripKeepsCollapsed(collapsed);
  }

  /** Postprocessing keeps the words of the corrected text: it only changes whitespace. */
  lemma PostprocessKeepsWords(text: string)
    ensures SplitWords(Postprocessed(text)) == SplitWords(ReplaceAll(text, Corrections))
  {
    var corrected := ReplaceAll(text, Corrections);
    StripKeepsWords(CollapseWhitespace(corrected));
    CollapseKeepsWords(corrected);
  }

  /** `postprocess_text` is idempotent. */
  lemma PostprocessIdempotent(text: string)
    ensures Postprocessed(Postprocessed(text)) == Postprocessed(text)
  {
    var u := Postprocessed(text);
    PostprocessedProperties(text);
    forall i | 0 <= i < |u| ensures ReplaceAll(u, Corrections)[i] == u[i] {
      CorrectedHasNoKey(u);
      assert forall k :: 0 <= k < |Corrections| ==> Corrections[k].0 != u[i];
      LookupMissing(u[i], Corrections);
    }
    assert ReplaceAll(u, Corrections) == u;
    CollapseUnchanged(u);
    StripUnchanged(u);
  }

  /** The loop of `postprocess_text` over the correction table, then collapse and strip. */
  method PostprocessText(text: string) returns (r: string)
    ensures r == Postprocessed(text)
    ensures NoCorrectionKey(r)
    ensures r == [] || (!IsSpace(r[0]) && !IsSpace(r[|r| - 1]))
    ensures OnlyPlainSpaces(r) && NoDoubleSpace(r)
  {
    r := text;
    for k := 0 to |Corrections|
      invariant r == ReplaceAll(text, Corrections[..k])
    {
      assert Corrections[..k + 1][..k] == Corrections[..k];
      r := ReplaceChar(r, Corrections[k].0, Corrections[k].1);
    }
    assert Corrections[..|Corrections|] == Corrections;
    r := CollapseWhitespace(r);
    r := Strip(r);
    PostprocessedProperties(text);
  }

  // ---------------------------------------------------------------------------
  // _is_heading
  // ---------------------------------------------------------------------------

  /**
   * `_is_heading`: shorter than 100 characters, or starting with an ASCII
   * digit or '.', or starting with 第, 章 or 節, or `isupper()`.
   */
  predicate IsHeading(line: string, isUpper: string -> bool) {
    || |line| < 100
    || (line != [] && (IsAsciiDigit(line[0]) || line[0] == '.'))
    || (line != [] && line[0] in "第章節")
    || isUpper(line)
  }

  // ---------------------------------------------------------------------------
  // The page loop of process_pdf
  // ---------------------------------------------------------------------------

  /** One page as the OCR engine and the PDF reader see it; `None` when extraction failed. */
  datatype PageSource = PageSource(ocrFragments: seq<string>, pdfText: Option<string>)

  /** An entry of `result["toc"]`. */
  datatype TocEntry = TocEntry(page: nat, text: string)

  /** Every OCR fragment post-processed. */
  function PostprocessAll(fragments: seq<string>): seq<string>
    decreases |fragments|
  {
    if fragments == [] then []
    else PostprocessAll(fragments[..|fragments| - 1]) + [Postprocessed(fragments[|fragments| - 1])]
  }

  /** The OCR text of a page: the post-processed fragments joined by spaces. */
  function OcrPageText(fragments: seq<string>): string {
    Join(PostprocessAll(fragments), " ")
  }

  /** The text of a page: the extracted PDF text when it is non-empty and longer than the OCR text. */
  function PageText(src: PageSource): string {
    var ocr := OcrPageText(src.ocrFragments);
    if src.pdfText.Some? && src.pdfText.value != [] && |src.pdfText.value| > |ocr| then src.pdfText.value else ocr
  }

  /** A page keeps its OCR text unless the extracted text is strictly longer, so it is never shorter than the OCR text. */
  lemma PageTextIsLonger(src: PageSource)
    ensures PageText(src) == OcrPageText(src.ocrFragments)
            || (src.pdfText == Some(PageText(src)) && |PageText(src)| > |OcrPageText(src.ocrFragments)|)
    ensures |PageText(src)| >= |OcrPageText(src.ocrFragments)|
    ensures src.pdfText.None? ==> PageText(src) == OcrPageText(src.ocrFragments)
  {
  }

  /** The texts of all pages, in page order. */
  function PageTexts(pages: seq<PageSource>): (r: seq<string>)
    ensures |r| == |pages|
    decreases |pages|
  {
    if pages == [] then [] else PageTexts(pages[..|pages| - 1]) + [PageText(pages[|pages| - 1])]
  }

  /** The OCR text of a page holds no newline, so it is one line for the TOC. */
  lemma OcrPageIsOneLine(fragments: seq<string>)
    ensures SplitOn(OcrPageText(fragments), '\n') == [OcrPageText(fragments)]
  {
    PostprocessAllOneLine(fragments);
    JoinAllSatisfy(PostprocessAll(fragments), " ", NotNewline);
    SplitOnJoin([OcrPageText(fragments)], '\n');
  }

  /** No post-processed fragment holds a newline: whitespace collapses to plain spaces. */
  lemma {:induction false} PostprocessAllOneLine(fragments: seq<string>)
    ensures forall k :: 0 <= k < |PostprocessAll(fragments)| ==> AllSatisfy(PostprocessAll(fragments)[k], NotNewline)
    decreases |fragments|
  {
    if fragments != [] {
      var init := PostprocessAll(fragments[..|fragments| - 1]);
      var last := Postprocessed(fragments[|fragments| - 1]);
      PostprocessAllOneLine(fragments[..|fragments| - 1]);
      PostprocessedProperties(fragments[|fragments| - 1]);
      assert AllSatisfy(last, NotNewline) by {
        forall i | 0 <= i < |last| ensures last[i] != '\n' {
          assert IsSpace('\n');
        }
      }
      var all := PostprocessAll(fragments);
      assert all == init + [last];
      forall k | 0 <= k < |all| ensures AllSatisfy(all[k], NotNewline) {
        if k < |init| {
          assert all[k] == init[k];
        }
      }
    }
  }

  predicate NotNewline(c: char) { c != '\n' }

  /** The entries the lines of one page add: the stripped heading lines, in order. */
  function HeadingEntries(page: nat, lines: seq<string>, isUpper: string -> bool): (r: seq<TocEntry>)
    ensures |r| <= |lines|
    ensures forall k :: 0 <= k < |r| ==> r[k].page == page
    decreases |lines|
  {
    if lines == [] then []
    else
      var line := lines[|lines| - 1];
      HeadingEntries(page, lines[..|lines| - 1], isUpper) + (if IsHeading(line, isUpper) then [TocEntry(page, Strip(line))] else [])
  }

  /** The TOC built from the page texts; page numbers start at 1. */
  function TocOf(texts: seq<string>, isUpper: string -> bool): seq<TocEntry>
    decreases |texts|
  {
    if texts == [] then []
    else TocOf(texts[..|texts| - 1], isUpper) + HeadingEntries(|texts|, SplitOn(texts[|texts| - 1], '\n'), isUpper)
  }

  /** The inner loop of the page loop: appends an entry for each heading line of one page. */
  method AddHeadings(toc: seq<TocEntry>, page: nat, lines: seq<string>, isUpper: string -> bool) returns (r: seq<TocEntry>)
    ensures r == toc + HeadingEntries(page, lines, isUpper)
  {
    r := toc;
    for k := 0 to |lines|
      invariant r == toc + HeadingEntries(page, lines[..k], isUpper)
    {
      assert lines[..k + 1][..k] == lines[..k];
      if IsHeading(lines[k], isUpper) {
        r := r + [TocEntry(page, Strip(lines[k]))];
      }
    }
    assert lines[..|lines|] == lines;
  }

  /** The text of one page: the OCR fragments post-processed and joined, unless the extracted text is longer. */
  method PageTextOf(src: PageSource) returns (pageText: string)
    ensures pageText == PageText(src)
  {
    pageText := OcrPageText(src.ocrFragments);
    if src.pdfText.Some? && src.pdfText.value != [] && |src.pdfText.value| > |pageText| {
      pageText := src.pdfText.value;
    }
  }

  /** One iteration of the page loop: records the page's text and appends its heading entries. */
  method AddPage(textByPage: seq<string>, toc: seq<TocEntry>, pageText: string, isUpper: string -> bool)
    returns (textByPage': seq<string>, toc': seq<TocEntry>)
    requires toc == TocOf(textByPage, isUpper)
    ensures textByPage' == textByPage + [pageText]
    ensures toc' == TocOf(textByPage', isUpper)
  {
    textByPage' := textByPage + [pageText];
    toc' := AddHeadings(toc, |textByPage'|, SplitOn(pageText, '\n'), isUpper);
    assert textByPage'[..|textByPage'| - 1] == textByPage;
  }

  /**
   * The page loop of `process_pdf`: records each page's text under its page
   * number and appends a TOC entry for each heading line.
   */
  method ProcessPages(pages: seq<PageSource>, isUpper: string -> bool) returns (textByPage: seq<string>, toc: seq<TocEntry>)
    ensures textByPage == PageTexts(pages)
    ensures toc == TocOf(textByPage, isUpper)
  {
    textByPage := [];
    toc := [];
    for p := 0 to |pages|
      invariant textByPage == PageTexts(pages[..p])
      invariant toc == TocOf(textByPage, isUpper)
    {
      var pageText := PageTextOf(pages[p]);
      assert pages[..p + 1][..p] == pages[..p];
      assert PageTexts(pages[..p + 1]) == PageTexts(pages[..p]) + [pageText];
      textByPage, toc := AddPage(textByPage, toc, pageText, isUpper);
    }
    assert pages[..|pages|] == pages;
  }

  /** `text` is the stripped form of a heading line among `lines`. */
  predicate IsHeadingLineOf(lines: seq<string>, isUpper: string -> bool, text: string) {
    exists k :: 0 <= k < |lines| && IsHeading(lines[k], isUpper) && text == Strip(lines[k])
  }

  /** An entry belongs to a page's entries exactly when it is the stripped form of one of its heading lines. */
  lemma {:induction false} HeadingEntriesMembers(page: nat, lines: seq<string>, isUpper: string -> bool, e: TocEntry)
    ensures e in HeadingEntries(page, lines, isUpper) <==> e.page == page && IsHeadingLineOf(lines, isUpper, e.text)
    decreases |lines|
  {
    if lines != [] {
      var init := lines[..|lines| - 1];
      HeadingEntriesMembers(page, init, isUpper, e);
      assert forall k :: 0 <= k < |init| ==> init[k] == lines[k];
    }
  }

  /** The lines `split("\n")` gives for a page, numbered from 1. */
  function PageLines(texts: seq<string>, page: nat): seq<string>
    requires 1 <= page <= |texts|
  {
    SplitOn(texts[page - 1], '\n')
  }

  /**
   * The TOC lists exactly the stripped heading lines of every page, each
   * under a page number between 1 and the number of pages.
   */
  lemma {:induction false} TocMembers(texts: seq<string>, isUpper: string -> bool, e: TocEntry)
    ensures e in TocOf(texts, isUpper) <==> 1 <= e.page <= |texts| && IsHeadingLineOf(PageLines(texts, e.page), isUpper, e.text)
    decreases |texts|
  {
    if texts != [] {
      var init := texts[..|texts| - 1];
      var last := SplitOn(texts[|texts| - 1], '\n');
      assert TocOf(texts, isUpper) == TocOf(init, isUpper) + HeadingEntries(|texts|, last, isUpper);
      TocMembers(init, isUpper, e);
      HeadingEntriesMembers(|texts|, last, isUpper, e);
      if 1 <= e.page < |texts| {
        assert PageLines(init, e.page) == PageLines(texts, e.page);
      } else if e.page == |texts| {
        assert PageLines(texts, e.page) == last;
      }
    }
  }

  /** Page numbers lie in 1..`pages` and never decrease along the entries. */
  predicate PagesOrdered(toc: seq<TocEntry>, pages: nat) {
    && (forall k :: 0 <= k < |toc| ==> 1 <= toc[k].page <= pages)
    && (forall i, j :: 0 <= i < j < |toc| ==> toc[i].page <= toc[j].page)
  }

  lemma AppendPage(left: seq<TocEntry>, right: seq<TocEntry>, pages: nat)
    requires pages >= 1 && PagesOrdered(left, pages - 1)
    requires forall k :: 0 <= k < |right| ==> right[k].page == pages
    ensures PagesOrdered(left + right, pages)
  {
    var all := left + right;
    forall k | 0 <= k < |all| ensures 1 <= all[k].page <= pages && (k >= |left| ==> all[k].page == pages) {
      if k >= |left| {
        assert all[k] == right[k - |left|];
      } else {
        assert all[k] == left[k];
      }
    }
    forall i, j | 0 <= i < j < |all| ensures all[i].page <= all[j].page {
      if j < |left| {
        assert all[i] == left[i] && all[j] == left[j];
      }
    }
  }

  /** Entries follow the pages: page numbers never decrease and stay within 1..number of pages. */
  lemma {:induction false} TocPagesOrdered(texts: seq<string>, isUpper: string -> bool)
    ensures PagesOrdered(TocOf(texts, isUpper), |texts|)
    decreases |texts|
  {
    if texts != [] {
      var init := texts[..|texts| - 1];
      TocPagesOrdered(init, isUpper);
      AppendPage(TocOf(init, isUpper), HeadingEntries(|texts|, SplitOn(texts[|texts| - 1], '\n'), isUpper), |texts|);
    }
  }

  /** Every line shorter than 100 characters is listed in the TOC. */
  lemma ShortLinesListed(texts: seq<string>, isUpper: string -> bool, page: nat, k: nat)
    requires 1 <= page <= |texts| && k < |PageLines(texts, page)|
    requires |PageLines(texts, page)[k]| < 100
    ensures TocEntry(page, Strip(PageLines(texts, page)[k])) in TocOf(texts, isUpper)
  {
    TocMembers(texts, isUpper, TocEntry(page, Strip(PageLines(texts, page)[k])));
  }

  /** No TOC entry's text holds a newline. */
  lemma TocTextsOneLine(texts: seq<string>, isUpper: string -> bool)
    ensures forall e :: e in TocOf(texts, isUpper) ==> '\n' !in e.text
  {
    forall e | e in TocOf(texts, isUpper) ensures '\n' !in e.text {
      TocMembers(texts, isUpper, e);
      var lines := PageLines(texts, e.page);
      assert IsHeadingLineOf(lines, isUpper, e.text);
      var k :| 0 <= k < |lines| && IsHeading(lines[k], isUpper) && e.text == Strip(lines[k]);
      assert lines[k] in lines;
    }
  }

  // ---------------------------------------------------------------------------
  // save_result
  // ---------------------------------------------------------------------------

  const TocHeader: string := "=== 目次 ===\n"
  const BodyHeader: string := "\n=== 本文 ===\n"
  const PagePrefix: string := "ページ "

  /** One TOC line without its newline: `ページ {page}: {text}`. */
  function TocLine(e: TocEntry): string {
    PagePrefix + NatToString(e.page) + ": " + e.text
  }

  /** The TOC lines of all entries, without their newlines. */
  function TocLines(toc: seq<TocEntry>): (r: seq<string>)
    ensures |r| == |toc|
    ensures forall k :: 0 <= k < |toc| ==> r[k] == TocLine(toc[k])
  {
    seq(|toc|, k requires 0 <= k < |toc| => TocLine(toc[k]))
  }

  /** The TOC part of the file: one line per entry, each ending in a newline. */
  function TocSection(toc: seq<TocEntry>): string {
    Terminated(TocLines(toc), "\n")
  }

  /** The part of the file written for one page. */
  function PageSection(page: nat, text: string): string {
    "\n--- ページ " + NatToString(page) + " ---\n" + text + "\n"
  }

  /** The body part of the file: every page in page order, numbered from 1. */
  function BodySection(texts: seq<string>): string
    decreases |texts|
  {
    if texts == [] then "" else BodySection(texts[..|texts| - 1]) + PageSection(|texts|, texts[|texts| - 1])
  }

  /** The whole text `save_result` writes. */
  function Layout(toc: seq<TocEntry>, texts: seq<string>): string {
    TocHeader + TocSection(toc) + BodyHeader + BodySection(texts)
  }

  /** The TOC loop of `save_result`: writes one line per entry after what is already written. */
  method WriteToc(written: string, toc: seq<TocEntry>) returns (content: string)
    ensures content == written + TocSection(toc)
  {
    content := written;
    for k := 0 to |toc|
      invariant content == written + TocSection(toc[..k])
    {
      ghost var section := TocSection(toc[..k]);
      assert TocLines(toc[..k + 1])[..k] == TocLines(toc[..k]);
      assert TocSection(toc[..k + 1]) == section + TocLine(toc[k]) + "\n";
      content := content + TocLine(toc[k]) + "\n";
    }
    assert toc[..|toc|] == toc;
  }

  /** The page loop of `save_result`: writes each page's header, text and newline after what is already written. */
  method WritePages(written: string, textByPage: seq<string>) returns (content: string)
    ensures content == written + BodySection(textByPage)
  {
    content := written;
    for p := 0 to |textByPage|
      invariant content == written + BodySection(textByPage[..p])
    {
      assert textByPage[..p + 1][..p] == textByPage[..p];
      content := content + PageSection(p + 1, textByPage[p]);
    }
    assert textByPage[..|textByPage|] == textByPage;
  }

  /**
   * `save_result`: the file name is the PDF's name with `_text.txt`
   * appended, and the content is written piece by piece in the layout above.
   */
  method SaveResult(filename: string, toc: seq<TocEntry>, textByPage: seq<string>) returns (fileName: string, content: string)
    ensures fileName == filename + "_text.txt"
    ensures content == Layout(toc, textByPage)
  {
    fileName := filename + "_text.txt";
    content := WriteToc(TocHeader, toc);
    content := content + BodyHeader;
    content := WritePages(content, textByPage);
  }

  /** Reads one TOC line back into its entry. */
  function ParseTocLine(line: string): Option<TocEntry> {
    if |line| < |PagePrefix| || line[..|PagePrefix|] != PagePrefix then None
    else
      var rest := line[|PagePrefix|..];
      var n := RunLength(rest, IsAsciiDigit);
      if n == 0 || |rest| < n + 2 || rest[n..n + 2] != ": " then None
      else Some(TocEntry(ParseDecimal(rest[..n]), rest[n + 2..]))
  }

  /** A TOC line reads back as the entry it was written from. */
  lemma TocLineRoundTrip(e: TocEntry)
    ensures ParseTocLine(TocLine(e)) == Some(e)
  {
    var digits := NatToString(e.page);
    var line := TocLine(e);
    var rest := line[|PagePrefix|..];
    assert line == PagePrefix + (digits + [':'] + (" " + e.text));
    assert rest == digits + [':'] + (" " + e.text);
    RunLengthStopsAt(digits, ':', " " + e.text, IsAsciiDigit);
    RunLengthWhole(digits, IsAsciiDigit);
    assert |line| >= |PagePrefix| && line[..|PagePrefix|] == PagePrefix;
    assert RunLength(rest, IsAsciiDigit) == |digits|;
    assert rest[|digits|..|digits| + 2] == ": ";
    assert rest[..|digits|] == digits;
    assert rest[|digits| + 2..] == e.text;
    NatToStringRoundTrip(e.page);
    assert ParseDecimal(rest[..|digits|]) == e.page;
  }

  /** No TOC line holds a newline when no entry's text does. */
  lemma TocLinesOneLine(toc: seq<TocEntry>)
    requires forall k :: 0 <= k < |toc| ==> '\n' !in toc[k].text
    ensures forall piece :: piece in TocLines(toc) + [""] ==> '\n' !in piece
  {
    var lines := TocLines(toc) + [""];
    forall piece | piece in lines ensures '\n' !in piece {
      var k :| 0 <= k < |lines| && lines[k] == piece;
      if k < |toc| {
        var digits := NatToString(toc[k].page);
        assert '\n' !in digits by {
          assert AllSatisfy(digits, IsAsciiDigit);
        }
        assert piece == PagePrefix + digits + ": " + toc[k].text;
      }
    }
  }

  /**
   * The TOC section of the saved file splits into one line per entry and
   * each line reads back as its entry, so long as no entry's text holds a
   * newline (which `TocTextsOneLine` guarantees for a built TOC).
   */
  lemma TocSectionRoundTrip(toc: seq<TocEntry>)
    requires forall k :: 0 <= k < |toc| ==> '\n' !in toc[k].text
    ensures SplitOn(TocSection(toc), '\n') == TocLines(toc) + [""]
    ensures forall k :: 0 <= k < |toc| ==> ParseTocLine(SplitOn(TocSection(toc), '\n')[k]) == Some(toc[k])
  {
    TerminatedIsJoin(TocLines(toc), "\n");
    TocLinesOneLine(toc);
    SplitOnJoin(TocLines(toc) + [""], '\n');
    forall k | 0 <= k < |toc| ensures ParseTocLine(TocLines(toc)[k]) == Some(toc[k]) {
      TocLineRoundTrip(toc[k]);
    }
  }
}
