# OCR comparison, OCR text utilities and TOC heuristics in Dafny

This project models the text-handling core of a document-processing
application that reads scanned PDFs with OCR. It has three parts:

- **The OCR comparison manager** (`OCRComparisonManager`). It holds the texts
  that two OCR engines, EasyOCR and PaddleOCR, read from the same page.
  - It splits both texts into word tokens (`[\w]+`).
  - It finds word-level differences with difflib's `SequenceMatcher`.
  - It computes a word-level matching rate, a character-level similarity
    score, and the common and unique vocabularies.
  - It appends one record per comparison to an append-only history and
    aggregates that history into statistics.
- **The OCR text utilities**:
  - `clean_ocr_text`: whitespace collapse, vertical bar and `l` → `I`, NFKC, trimming of
    non-alphanumerics at both ends.
  - `format_text_for_display`: greedy word wrapping.
  - `extract_keywords`.
  - `calculate_text_similarity`: a word-set overlap.
- **The TOC heuristics of the PDF processor**:
  - `postprocess_text`: a fixed table of full-width → ASCII corrections, then
    whitespace collapse, then strip.
  - The page loop of `process_pdf`: OCR text against extracted PDF text, and
    heading detection by `_is_heading`.
  - The text file that `save_result` writes: a TOC section, then one section
    per page.

Modules:

- `Wrappers`: `Option`.
- `Strings`: the Python string operations the source relies on.
  - `str.isspace`/`\s`, `str.split()`, `split('\n')`, `join`, `strip`.
  - `re.sub(r'\s+', ' ', ·)`.
  - Decimal formatting of page numbers.
- `SequenceMatcher`: difflib's `find_longest_match`, `get_matching_blocks`,
  `get_opcodes` and `ratio`, without junk.
- `OcrComparison`: `comparison_manager.py`. The manager is a class whose
  history field `CompareOcrResults` reassigns.
- `TextProcessing`: `utils/text_processing.py`.
- `CreateToc`: `create_toc.py`.

Loops that update variables in the source are methods with loop invariants:

- `_find_differences`
- the wrapping loop of `format_text_for_display`
- the keyword loop
- the correction loop of `postprocess_text`
- the page loop of `process_pdf`
- the writes of `save_result`

Each of these methods is proved equal to a recursive specification function,
and the properties are proved about that function. Unicode-dependent
predicates are parameters of the operations that use them:

- `\w` membership: `isWordChar`.
- NFKC normalisation: `nfkc`.
- `str.isupper`: `isUpper`.

Python whitespace (`str.isspace`, `\s`) is spelled out code point by code
point.

## Model

| member | source | states |
|---|---|---|
| OcrComparison.Tokenize | modules/ocr_comparison/comparison_manager.py:75-79 | every token is a non-empty run of word characters |
| OcrComparison.KeepNonBlank | modules/ocr_comparison/comparison_manager.py:79 | a word is in the result exactly when it is in the input and does not strip to nothing; the result is no longer than the input |
| OcrComparison.KeepNonBlankCounts | modules/ocr_comparison/comparison_manager.py:79 | every word that does not strip to nothing is kept as many times as it occurs, and no other word is kept |
| OcrComparison.KeepNonBlankAppend | modules/ocr_comparison/comparison_manager.py:79 | filtering works word by word, in order: the filter of a concatenation is the concatenation of the filters |
| OcrComparison.KeepNonBlankSingle | modules/ocr_comparison/comparison_manager.py:79 | a single word is kept exactly when it does not strip to nothing |
| OcrComparison.TokenizeIsRuns | modules/ocr_comparison/comparison_manager.py:75-79 | since word characters are never whitespace, the `strip()` filter drops nothing: the tokens are the maximal word-character runs, and concatenated they are the text's word characters in order |
| OcrComparison.TokenizeNoWords | modules/ocr_comparison/comparison_manager.py:78-79 | a text without word characters has no tokens |
| OcrComparison.MatchingRate | modules/ocr_comparison/comparison_manager.py:147-158 | the rate lies in [0, 1]; it is 1.0 for two empty token lists and 0.0 when exactly one is empty |
| OcrComparison.MatchingRateOneIff | modules/ocr_comparison/comparison_manager.py:147-158 | the matching rate is 1.0 exactly when the two token lists are equal |
| OcrComparison.SimilarityScore | modules/ocr_comparison/comparison_manager.py:81-88 | the score lies in [0, 1] and is 0.0 when either text is empty |
| OcrComparison.SimilarityScoreOneIff | modules/ocr_comparison/comparison_manager.py:81-88 | the score is 1.0 exactly when the texts are equal and non-empty (two empty texts score 0.0) |
| OcrComparison.AnalyzeWords | modules/ocr_comparison/comparison_manager.py:90-103 | common words are those in both lists; each unique list holds the words of one list that are not in the other |
| OcrComparison.AnalyzeWordsPartition | modules/ocr_comparison/comparison_manager.py:90-103 | the three word sets are pairwise disjoint; common plus unique-to-one gives each engine's vocabulary |
| OcrComparison.DifferencesOf | modules/ocr_comparison/comparison_manager.py:135-143 | each difference is a replace, delete or insert whose ranges lie in the token lists, whose words are exactly those ranges, and whose shape fits its kind |
| OcrComparison.DifferencesOfEmptyIff | modules/ocr_comparison/comparison_manager.py:135-136 | there are no differences exactly when every opcode is `equal` |
| OcrComparison.DifferencesOfStep | modules/ocr_comparison/comparison_manager.py:135-143 | one more opcode adds one difference unless it is `equal`, and adds nothing otherwise |
| OcrComparison.FindDifferences | modules/ocr_comparison/comparison_manager.py:126-145 | the loop returns the non-`equal` opcodes of `get_opcodes()` as differences, in order; each fits the token lists; the list is empty exactly when the token lists are equal |
| OcrComparison.RecordOf | modules/ocr_comparison/comparison_manager.py:45-70 | the stored record carries both texts, their token counts and character counts, rates in [0, 1], disjoint word sets, and a matching rate of 1.0 exactly when there are no differences |
| OcrComparison.OcrComparisonManager.constructor | modules/ocr_comparison/comparison_manager.py:17-18 | the history starts empty |
| OcrComparison.OcrComparisonManager.CompareOcrResults | modules/ocr_comparison/comparison_manager.py:20-73 | appends exactly one record, built from the two texts; earlier records stay as they were; returns the record's comparison part; the total difference count grows by that comparison's differences; every stored record stays valid |
| OcrComparison.AllValidAppend | modules/ocr_comparison/comparison_manager.py:72 | appending a valid record to a valid history keeps it valid |
| OcrComparison.SumNatAppend | modules/ocr_comparison/comparison_manager.py:177-178 | a per-record total over a history with one more record is the old total plus that record's value |
| OcrComparison.Mean | modules/ocr_comparison/comparison_manager.py:177-178 | `np.mean`: the mean times the number of records is the sum of the per-record values |
| OcrComparison.SumBounds | modules/ocr_comparison/comparison_manager.py:175-176 | a sum of values that each lie in [lo, hi] lies in [n·lo, n·hi] |
| OcrComparison.MeanBounds | modules/ocr_comparison/comparison_manager.py:175-176 | `np.mean` of values in [lo, hi] lies in [lo, hi] |
| OcrComparison.AverageRatesBounded | modules/ocr_comparison/comparison_manager.py:245-246 | on a history of valid records, the average matching rate and the average similarity score lie in [0, 1] |
| OcrComparison.CommonWordsUnion | modules/ocr_comparison/comparison_manager.py:250 | the union contains every record's common words and nothing else; its size is at most the sum of the per-record counts |
| OcrComparison.CommonWordsUnionBound | modules/ocr_comparison/comparison_manager.py:249-250 | `total_unique` is at most `average_count` times the number of comparisons |
| OcrComparison.CommonCountSum | modules/ocr_comparison/comparison_manager.py:249 | the real-valued sum of common-word counts equals their natural-number sum |
| OcrComparison.OcrComparisonManager.GenerateStatistics | modules/ocr_comparison/comparison_manager.py:168-186 | empty result exactly on an empty history; otherwise the page count, the total difference count, one word count per record per engine in history order, and `average_matching_rate` equal to the mean of the stored matching rates, which lies in [0, 1] |
| OcrComparison.OcrComparisonManager.GetDetailedStatistics | modules/ocr_comparison/comparison_manager.py:236-258 | empty result exactly on an empty history; otherwise the comparison count, the total difference count, the size of the union of common words, and each average (`average_matching_rate`, `average_similarity_score`, `common_words_stats.average_count`, `easyocr_average`, `paddleocr_average`) equal to the mean of its per-record value; the two rate averages lie in [0, 1] |
| SequenceMatcher.FindLongestMatch | modules/ocr_comparison/comparison_manager.py:133 | `find_longest_match`: a common block inside the range that no common block in the range is longer than; among the longest, the one starting earliest in `a`, then earliest in `b`; size 0 only at `(alo, blo)` |
| SequenceMatcher.Scan | modules/ocr_comparison/comparison_manager.py:133 | the double loop of `find_longest_match`: cells in row order, the kept block replaced only by a strictly longer run (its promise is stated by `ScanFindsLongest`) |
| SequenceMatcher.ScanKeepsInvariant | modules/ocr_comparison/comparison_manager.py:133 | the row-by-row scan of run lengths keeps its invariant to the last cell |
| SequenceMatcher.ScanCellKeepsInvariant | modules/ocr_comparison/comparison_manager.py:133 | visiting one cell and then the rest of the scan keeps the invariant |
| SequenceMatcher.ScanFindsLongest | modules/ocr_comparison/comparison_manager.py:133 | the finished scan's block meets the promise of `find_longest_match` |
| SequenceMatcher.ScanBeatsBlock | modules/ocr_comparison/comparison_manager.py:133 | every common block in the range is no longer than the kept block, and comes no earlier when it is as long |
| SequenceMatcher.LongestMatchUnique | modules/ocr_comparison/comparison_manager.py:133 | that promise determines the block uniquely |
| SequenceMatcher.LongestMatchNotExtensible | modules/ocr_comparison/comparison_manager.py:133 | the longest match cannot be extended by one equal element on either side, so the junk-extension loops change nothing without junk |
| SequenceMatcher.MatchingBlocksIn | modules/ocr_comparison/comparison_manager.py:133 | the recursive split around the longest match yields non-empty common blocks in increasing order inside the range |
| SequenceMatcher.MergeAdjacent | modules/ocr_comparison/comparison_manager.py:133 | merging adjacent blocks keeps the matched total and the start of the first block |
| SequenceMatcher.MergeAdjacentChain | modules/ocr_comparison/comparison_manager.py:133 | after merging, the blocks are still an ordered chain of common blocks, and no two neighbours are adjacent |
| SequenceMatcher.GetMatchingBlocks | modules/ocr_comparison/comparison_manager.py:133 | `get_matching_blocks()`: an ordered chain of non-adjacent common blocks, then the sentinel `(len(a), len(b), 0)` |
| SequenceMatcher.MatchesBound | modules/ocr_comparison/comparison_manager.py:157-158 | the matched length is at most the length of each sequence |
| SequenceMatcher.MatchesFull | modules/ocr_comparison/comparison_manager.py:157-158 | when the matched length equals both lengths, the sequences are equal |
| SequenceMatcher.IdenticalBlocks | modules/ocr_comparison/comparison_manager.py:157-158 | a sequence matched with itself gives one block covering it, plus the sentinel |
| SequenceMatcher.GetOpcodes | modules/ocr_comparison/comparison_manager.py:135 | `get_opcodes()`: the opcodes tile both sequences from start to end; `equal` ranges hold equal elements; `replace`, `delete` and `insert` have the shapes their names say |
| SequenceMatcher.OpcodesFrom | modules/ocr_comparison/comparison_manager.py:135 | the loop of `get_opcodes` from position `(i, j)`: its opcodes tile the rest of both sequences and each is well tagged |
| SequenceMatcher.GapAndEqualOpcodes | modules/ocr_comparison/comparison_manager.py:135 | the gap opcode before a block and the block's `equal` opcode each tile their ranges and are well tagged |
| SequenceMatcher.Reconstruct | modules/ocr_comparison/comparison_manager.py:135-143 | the left ranges of tiling opcodes concatenate to `a`, the right ranges to `b` |
| SequenceMatcher.OpcodesAllEqualIff | modules/ocr_comparison/comparison_manager.py:135-136 | every opcode is `equal` exactly when the sequences are equal |
| SequenceMatcher.AllEqualOpcodesSame | modules/ocr_comparison/comparison_manager.py:135-136 | tiling opcodes that are all `equal` leave the two sequences equal |
| SequenceMatcher.IdenticalOpcodes | modules/ocr_comparison/comparison_manager.py:135 | a sequence compared with itself gives one `equal` opcode, or none when it is empty |
| SequenceMatcher.Ratio | modules/ocr_comparison/comparison_manager.py:87-88 | `ratio()` lies in [0, 1] |
| SequenceMatcher.RatioOneIff | modules/ocr_comparison/comparison_manager.py:157-158 | `ratio()` is 1.0 exactly for equal sequences |
| TextProcessing.PreNormalize | utils/text_processing.py:30-34 | after the collapse and the two replacements: same length as the collapsed text, every vertical bar and every `l` became `I` and nothing else changed, no vertical bar or `l` is left, every whitespace character is a plain space, and no two are neighbours |
| TextProcessing.TrimLeading | utils/text_processing.py:40 | removes a prefix that holds no ASCII letter or digit; the rest is empty or starts with one |
| TextProcessing.TrimTrailing | utils/text_processing.py:43 | removes a suffix that holds no ASCII letter or digit; the rest is empty or ends with one |
| TextProcessing.CleanOcrText | utils/text_processing.py:18-45 | the result is an infix of the normalised text, and the parts cut off at its two ends hold no ASCII letter or digit; it is empty or starts and ends with an ASCII letter or digit; it keeps every ASCII letter and digit of the normalised text, in order |
| TextProcessing.TrimIsInfix | utils/text_processing.py:40-43 | the two `re.sub` trims leave an infix of their input and cut off no ASCII letter or digit |
| TextProcessing.TrimKeepsAlnum | utils/text_processing.py:40-43 | trimming both ends removes no ASCII letter or digit |
| TextProcessing.FinalStripUnchanged | utils/text_processing.py:45 | the final `strip()` never changes the trimmed text |
| TextProcessing.JoinedWords | utils/text_processing.py:77 | words joined with spaces split back into the same words and contain no newline |
| TextProcessing.WrapStepJoin | utils/text_processing.py:73-75 | a word that fits joins the current line and keeps the loop invariant |
| TextProcessing.WrapStepFlush | utils/text_processing.py:76-79 | a word that does not fit flushes the current line and starts a new one, keeping the invariant |
| TextProcessing.WrapWordsInvariant | utils/text_processing.py:72-79 | after any words, the loop state keeps the invariant: the words in order, every line of two or more words within `max_length`, and the first-line rule |
| TextProcessing.FinishedLinesProperties | utils/text_processing.py:81-82 | flushing the current line after the loop keeps the words, the line widths and the first-line rule; there are no lines exactly when there are no words |
| TextProcessing.WrappedProperties | utils/text_processing.py:67-84 | the wrapped text splits back into the same words; every line of two or more words fits `max_length`; no words give ""; the first line is empty exactly when the first word does not fit |
| TextProcessing.WrapLines | utils/text_processing.py:67-84 | the line-filling loop computes the wrapped text of the words |
| TextProcessing.FormatTextForDisplay | utils/text_processing.py:51-84 | the result is the wrapping of the cleaned text's words: same words in order, lines of two or more words within `max_length`, "" for no words, first line empty exactly when the first word does not fit |
| TextProcessing.LowerWord | utils/text_processing.py:116 | `lower()` on the stripped word changes exactly its ASCII capitals, one by one |
| TextProcessing.KeywordOf | utils/text_processing.py:112-116 | a word yields at most one keyword, made of lower-case ASCII letters and digits, and yields one exactly when it is at least `min_length` long and holds an ASCII letter or digit |
| TextProcessing.KeywordList | utils/text_processing.py:110-116 | at most one keyword per word, each non-empty lower-case ASCII alphanumeric |
| TextProcessing.KeywordListMembers | utils/text_processing.py:110-116 | a keyword is listed exactly when some word at least `min_length` long, stripped to `[a-zA-Z0-9]` and lower-cased, is that keyword |
| TextProcessing.KeywordShorterThanMinimum | utils/text_processing.py:112-114 | the length check comes before the stripping, so a keyword can be shorter than `min_length` ("a-b" with minimum 3 yields "ab") |
| TextProcessing.CollectKeywords | utils/text_processing.py:109-118 | the loop, followed by `set()`, yields exactly the keyword set of the words |
| TextProcessing.ExtractKeywords | utils/text_processing.py:90-118 | the result is the deduplicated keyword set of the cleaned text's words; every keyword is non-empty lower-case ASCII alphanumeric |
| TextProcessing.SetSimilarity | utils/text_processing.py:145-152 | the similarity lies in [0, 1] and is 0.0 when either word set is empty |
| TextProcessing.SetSimilaritySymmetric | utils/text_processing.py:145-152 | the word-set similarity does not depend on the argument order |
| TextProcessing.SetSimilarityOneIff | utils/text_processing.py:145-152 | the similarity is 1.0 exactly when the word sets are equal and non-empty |
| TextProcessing.SubsetCardinality | utils/text_processing.py:151 | a subset is no larger, and a subset of the same size is the whole set (so the common words are never more than the larger set) |
| TextProcessing.TextSimilarity | utils/text_processing.py:124-152 | `calculate_text_similarity` lies in [0, 1] |
| TextProcessing.TextSimilaritySymmetric | utils/text_processing.py:124-152 | `calculate_text_similarity` does not depend on the argument order |
| CreateToc.ReplaceAll | create_toc.py:59-61 | the replacement loop keeps the length and maps each character on its own through the table's replacements in order |
| CreateToc.CorrectCharIsLookup | create_toc.py:50-61 | since no replacement is itself a key, the replacements in sequence act like one dictionary lookup, and the result is never a key |
| CreateToc.LookupIsValue | create_toc.py:50-57 | a key of the table is corrected to an ASCII character |
| CreateToc.LookupMissing | create_toc.py:60-61 | a character that is not a key is kept |
| CreateToc.CorrectionsAreAscii | create_toc.py:50-57 | every key of the correction table lies outside ASCII and every replacement inside it |
| CreateToc.CorrectedHasNoKey | create_toc.py:59-61 | after the loop, every character is its table lookup and none of the table's keys is left |
| CreateToc.StripKeepsCollapsed | create_toc.py:64-67 | stripping a collapsed text keeps it collapsed |
| CreateToc.Postprocessed | create_toc.py:47-69 | `postprocess_text`: the table's corrections, then `re.sub(r'\s+', ' ', ·)`, then `strip()` (its promises are the lemmas below) |
| CreateToc.PostprocessedProperties | create_toc.py:47-69 | the post-processed text holds no correction key, has no whitespace at either end, and its only whitespace is single plain spaces |
| CreateToc.PostprocessKeepsWords | create_toc.py:63-67 | collapsing and stripping keep the words of the corrected text |
| CreateToc.PostprocessIdempotent | create_toc.py:47-69 | post-processing twice is the same as once |
| CreateToc.PostprocessText | create_toc.py:47-69 | the loop over the table, then collapse, then strip compute the post-processed text, with the properties above |
| CreateToc.PageText | create_toc.py:120-128 | the page text: the joined OCR fragments, replaced by the extracted PDF text when that is non-empty and strictly longer (stated by `PageTextIsLonger`) |
| CreateToc.PageTextIsLonger | create_toc.py:120-128 | the page text is the OCR text unless the extracted PDF text is strictly longer; it is never shorter than the OCR text; without extracted text it is the OCR text |
| CreateToc.OcrPageIsOneLine | create_toc.py:120-133 | an OCR page text has no newline, so it splits into one line |
| CreateToc.PostprocessAllOneLine | create_toc.py:120 | no post-processed fragment holds a newline |
| CreateToc.HeadingEntries | create_toc.py:133-139 | at most one entry per line, each with the page's number |
| CreateToc.HeadingEntriesMembers | create_toc.py:133-139 | an entry is listed for a page exactly when its text is the stripped form of one of the page's heading lines |
| CreateToc.AddHeadings | create_toc.py:134-139 | the inner loop appends the page's heading entries to the TOC |
| CreateToc.PageTextOf | create_toc.py:120-128 | computes the page text from the OCR fragments and the extracted text |
| CreateToc.AddPage | create_toc.py:130-139 | one page: its text is appended to the page texts, and the TOC stays the TOC of all pages so far |
| CreateToc.ProcessPages | create_toc.py:94-139 | the page loop produces the page texts in page order and the TOC of those texts |
| CreateToc.IsHeading | create_toc.py:147-156 | `_is_heading`: a line is a heading when it is shorter than 100 characters, starts with a digit or `.`, starts with 第, 章 or 節, or is upper case (`ShortLinesListed` states the consequence for the TOC) |
| CreateToc.TocOf | create_toc.py:94-139 | the TOC of the page loop: the heading entries of each page in page order, pages numbered from 1 (stated by `TocMembers` and `TocPagesOrdered`) |
| CreateToc.TocMembers | create_toc.py:130-139 | an entry is in the TOC exactly when its page exists and its text is the stripped form of a heading line of that page |
| CreateToc.AppendPage | create_toc.py:130-139 | appending one page's entries after the earlier pages keeps the TOC ordered by page |
| CreateToc.TocPagesOrdered | create_toc.py:94-139 | every TOC page number lies between 1 and the page count, and page numbers never decrease |
| CreateToc.ShortLinesListed | create_toc.py:133-155 | every line shorter than 100 characters is listed in the TOC, whatever it holds |
| CreateToc.TocTextsOneLine | create_toc.py:133-139 | no TOC text holds a newline |
| CreateToc.TocLines | create_toc.py:168-169 | one line per entry, in order: `ページ {page}: {text}` |
| CreateToc.Layout | create_toc.py:167-175 | the file content is the TOC header, the TOC lines, the body header and one section per page |
| CreateToc.WriteToc | create_toc.py:167-169 | the TOC loop appends one newline-terminated line per entry |
| CreateToc.WritePages | create_toc.py:171-175 | the page loop appends one section per page, numbered from 1 |
| CreateToc.SaveResult | create_toc.py:158-178 | the file is `{filename}_text.txt` and its content is the layout of the TOC and the pages |
| CreateToc.TocLineRoundTrip | create_toc.py:169 | a TOC line reads back as the entry it was written from |
| CreateToc.TocLinesOneLine | create_toc.py:169 | with newline-free texts, no TOC line holds a newline |
| CreateToc.TocSectionRoundTrip | create_toc.py:168-169 | with newline-free texts, the TOC section splits at newlines into exactly the TOC lines plus a final empty piece, and each line reads back as its entry |
| Strings.CollapseWhitespace | create_toc.py:64 | keeps emptiness, never lengthens, and maps a leading whitespace run to one space |
| Strings.CollapsedIsClean | utils/text_processing.py:30 | after `re.sub(r'\s+', ' ', ·)` every whitespace character is a plain space, no two are neighbours, and no other character is introduced |
| Strings.CollapseUnchanged | create_toc.py:64 | collapsing an already collapsed text changes nothing |
| Strings.CollapseKeepsWords | utils/text_processing.py:30-67 | collapsing whitespace does not change `str.split()` |
| Strings.Strip | create_toc.py:67 | `strip()` leaves no whitespace at either end, never lengthens the text and introduces no character |
| Strings.StripIsInfix | create_toc.py:67 | `strip()` is the infix of the text left after cutting off whitespace, and only whitespace, at both ends |
| Strings.StripKeepsWords | create_toc.py:67 | `strip()` does not change the words `str.split()` sees |
| Strings.Runs | modules/ocr_comparison/comparison_manager.py:78 | `re.findall(r'[\w]+', text)`: every run is non-empty and made of class characters |
| Strings.SplitOn | create_toc.py:133 | `split('\n')` yields at least one piece, and no piece holds the separator |
| Strings.StripUnchanged | utils/text_processing.py:45 | `strip()` keeps a text without whitespace at its ends |
| Strings.SplitWords | utils/text_processing.py:67 | `str.split()` yields non-empty words without whitespace |
| Strings.Join | create_toc.py:120 | `sep.join(parts)` (its promises are `JoinSplitOn`, `SplitOnJoin` and `TerminatedIsJoin`) |
| Strings.JoinSplitOn | create_toc.py:133 | joining the pieces of `split('\n')` with newlines gives the text back |
| Strings.SplitOnJoin | create_toc.py:133 | splitting at newlines undoes joining newline-free pieces |
| Strings.TerminatedIsJoin | create_toc.py:168-169 | lines each followed by a newline are the lines plus an empty piece, joined with newlines |
| Strings.RunsConcat | modules/ocr_comparison/comparison_manager.py:78 | the maximal runs of a class, concatenated, are the text's characters of that class |
| Strings.NatToStringRoundTrip | create_toc.py:169 | a page number written in decimal reads back as itself |

## Left out

- `_generate_diff_html`, the `diff_html` field, `export_comparison_results` and `create_comparison_visualization` are not modelled. They produce HTML, JSON files and plotly figures.
- The `document_info.timestamp` of each record is not modelled: it reads the clock.
- `difflib` junk handling is not modelled. `SequenceMatcher` is built with no junk function. Its autojunk heuristic treats elements occurring in more than 1% of `b` as junk once `len(b) >= 200`. The model always matches without junk. So character-level similarity scores of texts of 200 or more characters may differ from Python's. The same holds at word level: once the PaddleOCR token list has 200 or more tokens, which an ordinary OCR page reaches, Python's `get_opcodes` and `ratio` may differ from the model's. That affects `_find_differences` and `_calculate_matching_rate`.
- `SequenceMatcher.MatchingBlocksIn`: `get_matching_blocks` works through a queue and sorts the blocks at the end. The model recurses left of, then right of, each longest match, which yields the same blocks already in sorted order.
- `SequenceMatcher.MatchingBlocksIn`, `SequenceMatcher.GetMatchingBlocks`: the contracts state that the blocks form an ordered chain of common blocks. They do not state that each block is the longest match of its sub-range. The function body has that form, but no lemma states it.
- `AnalyzeWords` and `ExtractKeywords` return sets. Python returns `list(set(...))`, whose order is an artefact of hashing.
- Python floats are modelled as exact reals: the rates, `np.mean` and the division in `calculate_text_similarity`. Rounding is not modelled.
- Unicode `\w`, `unicodedata.normalize('NFKC', ·)` and `str.isupper` are parameters (`isWordChar`, `nfkc`, `isUpper`). Their Unicode tables are not modelled.
- `TextProcessing.CleanOcrText`: the contract speaks of the text after the `nfkc` parameter, about which nothing is assumed. It does not claim that NFKC maps full-width letters to ASCII.
- The `except` branches of the text utilities (`return text`, `return []`, `return 0.0`) and of `process_pdf` (re-raise) are not modelled. The modelled operations raise nothing on any string input.
- Logging is not modelled.
- OCR, PDF rendering, image preprocessing (`preprocess_image`, OpenCV), `easyocr.Reader` and `PdfReader` are not modelled. A page is given as its OCR fragments and its extracted text. `None` stands for a failed extraction, whose exception the source swallows.
- The file system is not modelled: the output directory, `mkdir` and `open`. `SaveResult` returns the file name and the exact content written. `main`, which loops over `pdf_folder`, is not modelled.
- `PDFProcessor` is not a class here. Its only fields are the folder path and the OCR reader, and neither is modelled. `process_pdf` is modelled through its page loop, `ProcessPages`. The `filename` and `total_pages` entries of its result are not modelled.
- `text_by_page` is a dictionary keyed by page number in insertion order. It is modelled as a sequence whose k-th element is page k+1.
- `CreateToc.WritePages` appends each page section as one string. The source makes three `write` calls for it, with the same resulting content.
- `OcrComparison.OcrComparisonManager.GenerateStatistics`, `OcrComparison.OcrComparisonManager.GetDetailedStatistics`: on an empty history the source returns `{}`; the model returns `None`.
- `OcrComparison.OcrComparisonManager.GetDetailedStatistics`: the bound relating `total_unique` to `average_count` is stated separately in `CommonWordsUnionBound`, not in this member's contract.
