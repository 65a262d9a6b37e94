/**
 * `OCRComparisonManager`: compares the texts two OCR engines (EasyOCR and
 * PaddleOCR) read from the same page, word by word and character by
 * character, keeps every comparison in an append-only history and
 * aggregates that history into statistics.
 *
 * Unicode `\w` membership is a parameter (`isWordChar`); timestamps, the
 * HTML diff and the file export are not modelled.
 */
module OcrComparison {
  import opened Wrappers
  import opened Strings
  import opened SequenceMatcher

  // ---------------------------------------------------------------------------
  // Tokenizing
  // ---------------------------------------------------------------------------

  /**
   * `[w for w in words if w.strip()]`. `KeepNonBlankCounts` adds that each
   * kept word is kept as often as it occurs, `KeepNonBlankAppend` that the
   * kept words stay in their order.
   */
  function KeepNonBlank(words: seq<string>): (r: seq<string>)
    ensures |r| <= |words|
    ensures forall w :: w in r ==> w in words && Strip(w) != []
    ensures forall w :: w in words && Strip(w) != [] ==> w in r
  {
    if words == [] then []
    else
      var rest := KeepNonBlank(words[1..]);
      assert forall w :: w in words ==> w == words[0] || w in words[1..];
      if Strip(words[0]) != [] then [words[0]] + rest else rest
  }

  /** The filter works word by word: filtering a concatenation concatenates the filtered parts, in order. */
  lemma {:induction false} KeepNonBlankAppend(xs: seq<string>, ys: seq<string>)
    ensures KeepNonBlank(xs + ys) == KeepNonBlank(xs) + KeepNonBlank(ys)
  {
    if xs == [] {
      assert xs + ys == ys;
    } else {
      assert (xs + ys)[0] == xs[0];
      assert (xs + ys)[1..] == xs[1..] + ys;
      KeepNonBlankAppend(xs[1..], ys);
    }
  }

  /** Every non-blank word is kept as many times as it occurs; no blank word is kept. */
  lemma {:induction false} KeepNonBlankCounts(words: seq<string>, w: string)
    ensures multiset(KeepNonBlank(words))[w] == if Strip(w) != [] then multiset(words)[w] else 0
  {
    if words != [] {
      KeepNonBlankCounts(words[1..], w);
      KeepNonBlankCountStep(words, w);
    }
  }

  /** The count of `w` after filtering adds up over the first word and the rest. */
  lemma KeepNonBlankCountStep(words: seq<string>, w: string)
    requires words != []
    ensures multiset(KeepNonBlank(words))[w]
            == (if Strip(w) != [] then multiset([words[0]])[w] else 0) + multiset(KeepNonBlank(words[1..]))[w]
    ensures multiset(words)[w] == multiset([words[0]])[w] + multiset(words[1..])[w]
  {
    var w0, tail := words[0], words[1..];
    assert words == [w0] + tail;
    KeepNonBlankAppend([w0], tail);
    KeepNonBlankSingle(w0);
  }

  /** A single word is kept exactly when it does not strip to nothing. */
  lemma KeepNonBlankSingle(w: string)
    ensures KeepNonBlank([w]) == if Strip(w) != [] then [w] else []
  {
    assert [w][1..] == [];
  }

  /**
   * `_tokenize_text`: the maximal runs of word characters
   * (`re.findall(r'[\w]+', text)`), without those that strip to nothing.
   */
  function Tokenize(text: string, isWordChar: char -> bool): (words: seq<string>)
    ensures forall w :: w in words ==> w != [] && AllSatisfy(w, isWordChar)
  {
    KeepNonBlank(Runs(text, isWordChar))
  }

  lemma {:induction false} KeepNonBlankAll(words: seq<string>)
    requires forall k :: 0 <= k < |words| ==> words[k] != [] && AllSatisfy(words[k], NotSpace)
    ensures KeepNonBlank(words) == words
  {
    if words != [] {
      var w0, tail := words[0], words[1..];
      assert KeepNonBlank([w0]) == [w0] by {
        StripUnchanged(w0);
        KeepNonBlankSingle(w0);
      }
      assert KeepNonBlank(tail) == tail by {
        assert forall k :: 0 <= k < |tail| ==> tail[k] == words[k + 1];
        KeepNonBlankAll(tail);
      }
      assert words == [w0] + tail;
      KeepNonBlankAppend([w0], tail);
    }
  }

  /**
   * Word characters are never whitespace (true of Unicode `\w`), so the
   * `strip()` filter drops nothing: the tokens are exactly the maximal
   * word-character runs, and joined together they are the text's word
   * characters in order.
   */
  lemma TokenizeIsRuns(text: string, isWordChar: char -> bool)
    requires forall c :: isWordChar(c) ==> !IsSpace(c)
    ensures Tokenize(text, isWordChar) == Runs(text, isWordChar)
    ensures Concat(Tokenize(text, isWordChar)) == Filter(text, isWordChar)
  {
    var runs := Runs(text, isWordChar);
    forall k | 0 <= k < |runs| ensures runs[k] != [] && AllSatisfy(runs[k], NotSpace) {
      assert runs[k] in runs;
      assert AllSatisfy(runs[k], isWordChar);
    }
    KeepNonBlankAll(runs);
    RunsConcat(text, isWordChar);
  }

  /** A text without word characters has no tokens. */
  lemma TokenizeNoWords(text: string, isWordChar: char -> bool)
    requires NoneSatisfy(text, isWordChar)
    ensures Tokenize(text, isWordChar) == []
  {
    RunsOfNone(text, isWordChar);
  }

  // ---------------------------------------------------------------------------
  // Rates
  // ---------------------------------------------------------------------------

  /**
   * `_calculate_matching_rate`: 1.0 when both token lists are empty, 0.0
   * when exactly one is, otherwise the word-level `ratio()`.
   */
  function MatchingRate(easy: seq<string>, paddle: seq<string>): (r: real)
    ensures 0.0 <= r <= 1.0
    ensures easy == [] && paddle == [] ==> r == 1.0
    ensures (easy == []) != (paddle == []) ==> r == 0.0
  {
    if easy == [] && paddle == [] then 1.0
    else if easy == [] || paddle == [] then 0.0
    else Ratio(easy, paddle)
  }

  /** The matching rate is 1.0 exactly for identical token lists. */
  lemma MatchingRateOneIff(easy: seq<string>, paddle: seq<string>)
    ensures MatchingRate(easy, paddle) == 1.0 <==> easy == paddle
  {
    if easy != [] && paddle != [] {
      RatioOneIff(easy, paddle);
    }
  }

  /**
   * `_calculate_similarity_score`: 0.0 when either text is empty (both
   * empty included), otherwise the character-level `ratio()`.
   */
  function SimilarityScore(text1: string, text2: string): (r: real)
    ensures 0.0 <= r <= 1.0
    ensures text1 == [] || text2 == [] ==> r == 0.0
  {
    if text1 == [] || text2 == [] then 0.0 else Ratio(text1, text2)
  }

  /** The similarity score is 1.0 exactly for identical non-empty texts. */
  lemma SimilarityScoreOneIff(text1: string, text2: string)
    ensures SimilarityScore(text1, text2) == 1.0 <==> text1 == text2 && text1 != []
  {
    if text1 != [] && text2 != [] {
      RatioOneIff(text1, text2);
    }
  }

  // ---------------------------------------------------------------------------
  // Vocabularies
  // ---------------------------------------------------------------------------

  /** The three word lists of `_analyze_words`; their order comes from Python's set iteration and is not modelled. */
  datatype WordAnalysis = WordAnalysis(commonWords: set<string>, uniqueEasy: set<string>, uniquePaddle: set<string>)

  function AsSet(words: seq<string>): (s: set<string>)
    ensures forall w :: w in s <==> w in words
  {
    set w | w in words
  }

  /** `_analyze_words`: words read by both engines, and words only one of them read. */
  function AnalyzeWords(words1: seq<string>, words2: seq<string>): (r: WordAnalysis)
    ensures forall w :: w in r.commonWords <==> w in words1 && w in words2
    ensures forall w :: w in r.uniqueEasy <==> w in words1 && w !in words2
    ensures forall w :: w in r.uniquePaddle <==> w in words2 && w !in words1
  {
    var set1 := AsSet(words1);
    var set2 := AsSet(words2);
    WordAnalysis(set1 * set2, set1 - set2, set2 - set1)
  }

  /** The three lists partition the two vocabularies. */
  lemma AnalyzeWordsPartition(words1: seq<string>, words2: seq<string>)
    ensures var r := AnalyzeWords(words1, words2);
            && r.commonWords !! r.uniqueEasy && r.commonWords !! r.uniquePaddle && r.uniqueEasy !! r.uniquePaddle
            && r.commonWords + r.uniqueEasy == AsSet(words1)
            && r.commonWords + r.uniquePaddle == AsSet(words2)
  {
  }

  // ---------------------------------------------------------------------------
  // Differences
  // ---------------------------------------------------------------------------

  /** One entry of `_find_differences`: an opcode that is not `equal`, with the words it covers. */
  datatype Difference = Difference(kind: Tag, easyRange: (nat, nat), paddleRange: (nat, nat),
                                   easyWords: seq<string>, paddleWords: seq<string>)

  /**
   * `d` is a difference between `easy` and `paddle`: a `replace`, `delete`
   * or `insert` whose ranges lie inside the lists, whose words are those
   * ranges, and whose shape fits its kind.
   */
  predicate DifferenceFits(easy: seq<string>, paddle: seq<string>, d: Difference) {
    && d.kind != Equal
    && d.easyRange.0 <= d.easyRange.1 <= |easy| && d.paddleRange.0 <= d.paddleRange.1 <= |paddle|
    && d.easyWords == easy[d.easyRange.0..d.easyRange.1]
    && d.paddleWords == paddle[d.paddleRange.0..d.paddleRange.1]
    && (d.kind == Replace ==> d.easyWords != [] && d.paddleWords != [])
    && (d.kind == Delete ==> d.easyWords != [] && d.paddleWords == [])
    && (d.kind == Insert ==> d.easyWords == [] && d.paddleWords != [])
  }

  /** The differences the opcodes `ops` yield: one per opcode that is not `equal`, in order. */
  function DifferencesOf(easy: seq<string>, paddle: seq<string>, ops: seq<Opcode>): (r: seq<Difference>)
    requires AllWellTagged(easy, paddle, ops)
    ensures |r| <= |ops|
    ensures forall k :: 0 <= k < |r| ==> DifferenceFits(easy, paddle, r[k])
    decreases |ops|
  {
    if ops == [] then []
    else
      var op := ops[|ops| - 1];
      assert WellTagged(easy, paddle, op);
      var rest := DifferencesOf(easy, paddle, ops[..|ops| - 1]);
      if op.tag == Equal then rest
      else rest + [Difference(op.tag, (op.i1, op.i2), (op.j1, op.j2), easy[op.i1..op.i2], paddle[op.j1..op.j2])]
  }

  /** There are no differences exactly when every opcode is `equal`. */
  lemma {:induction false} DifferencesOfEmptyIff(easy: seq<string>, paddle: seq<string>, ops: seq<Opcode>)
    requires AllWellTagged(easy, paddle, ops)
    ensures DifferencesOf(easy, paddle, ops) == [] <==> forall k :: 0 <= k < |ops| ==> ops[k].tag == Equal
    decreases |ops|
  {
    if ops != [] {
      var init := ops[..|ops| - 1];
      DifferencesOfEmptyIff(easy, paddle, init);
      assert forall k :: 0 <= k < |init| ==> init[k] == ops[k];
    }
  }

  /** `_find_differences`: walks the word-level opcodes and keeps those that are not `equal`. */
  method FindDifferences(easy: seq<string>, paddle: seq<string>) returns (differences: seq<Difference>)
    ensures differences == DifferencesOf(easy, paddle, GetOpcodes(easy, paddle))
    ensures forall k :: 0 <= k < |differences| ==> DifferenceFits(easy, paddle, differences[k])
    ensures differences == [] <==> easy == paddle
  {
    var ops := GetOpcodes(easy, paddle);
    differences := [];
    var n := 0;
    while n < |ops|
      invariant 0 <= n <= |ops|
      invariant AllWellTagged(easy, paddle, ops[..n])
      invariant differences == DifferencesOf(easy, paddle, ops[..n])
    {
      var op := ops[n];
      DifferencesOfStep(easy, paddle, ops, n);
      if op.tag != Equal {
        differences := differences + [Difference(op.tag, (op.i1, op.i2), (op.j1, op.j2), easy[op.i1..op.i2], paddle[op.j1..op.j2])];
      }
      n := n + 1;
    }
    assert ops[..n] == ops;
    DifferencesOfEmptyIff(easy, paddle, ops);
    OpcodesAllEqualIff(easy, paddle);
  }

  /** One more opcode: the prefix stays well tagged and yields at most one more difference. */
  lemma DifferencesOfStep(easy: seq<string>, paddle: seq<string>, ops: seq<Opcode>, n: nat)
    requires AllWellTagged(easy, paddle, ops) && n < |ops|
    ensures WellTagged(easy, paddle, ops[n])
    ensures AllWellTagged(easy, paddle, ops[..n]) && AllWellTagged(easy, paddle, ops[..n + 1])
    ensures var op := ops[n];
            DifferencesOf(easy, paddle, ops[..n + 1]) ==
              DifferencesOf(easy, paddle, ops[..n]) +
              (if op.tag == Equal then []
               else [Difference(op.tag, (op.i1, op.i2), (op.j1, op.j2), easy[op.i1..op.i2], paddle[op.j1..op.j2])])
  {
    assert ops[..n + 1][..n] == ops[..n] && ops[..n + 1][n] == ops[n];
  }

  // ---------------------------------------------------------------------------
  // Comparison records and the history
  // ---------------------------------------------------------------------------

  /** `ocr_results.easyocr` / `ocr_results.paddleocr` of a record. */
  datatype EngineResult = EngineResult(text: string, wordCount: nat, charCount: nat)

  /** The `comparison` part of a record, without `diff_html`. */
  datatype Comparison = Comparison(
    matchingRate: real,
    similarityScore: real,
    differences: seq<Difference>,
    commonWords: set<string>,
    uniqueEasy: set<string>,
    uniquePaddle: set<string>)

  /** One entry of `comparison_history`, without `document_info.timestamp`. */
  datatype ComparisonRecord = ComparisonRecord(easyocr: EngineResult, paddleocr: EngineResult, comparison: Comparison)

  /**
   * What holds of every record `compare_ocr_results` stores: counts match
   * the texts, both rates lie in [0, 1], the word lists are disjoint, and the
   * matching rate is 1.0 exactly when no difference was found.
   */
  predicate RecordValid(r: ComparisonRecord) {
    && r.easyocr.charCount == |r.easyocr.text| && r.paddleocr.charCount == |r.paddleocr.text|
    && 0.0 <= r.comparison.matchingRate <= 1.0
    && 0.0 <= r.comparison.similarityScore <= 1.0
    && r.comparison.commonWords !! r.comparison.uniqueEasy
    && r.comparison.commonWords !! r.comparison.uniquePaddle
    && r.comparison.uniqueEasy !! r.comparison.uniquePaddle
    && (r.comparison.matchingRate == 1.0 <==> r.comparison.differences == [])
  }

  /** The record `compare_ocr_results` builds for two page texts. */
  function RecordOf(easyText: string, paddleText: string, isWordChar: char -> bool): (r: ComparisonRecord)
    ensures RecordValid(r)
    ensures r.easyocr.text == easyText && r.paddleocr.text == paddleText
    ensures r.easyocr.wordCount == |Tokenize(easyText, isWordChar)|
    ensures r.paddleocr.wordCount == |Tokenize(paddleText, isWordChar)|
  {
    var easyWords := Tokenize(easyText, isWordChar);
    var paddleWords := Tokenize(paddleText, isWordChar);
    var ops := GetOpcodes(easyWords, paddleWords);
    var analysis := AnalyzeWords(easyWords, paddleWords);
    MatchingRateOneIff(easyWords, paddleWords);
    DifferencesOfEmptyIff(easyWords, paddleWords, ops);
    OpcodesAllEqualIff(easyWords, paddleWords);
    ComparisonRecord(
      EngineResult(easyText, |easyWords|, |easyText|),
      EngineResult(paddleText, |paddleWords|, |paddleText|),
      Comparison(
        MatchingRate(easyWords, paddleWords),
        SimilarityScore(easyText, paddleText),
        DifferencesOf(easyWords, paddleWords, ops),
        analysis.commonWords, analysis.uniqueEasy, analysis.uniquePaddle))
  }

  // ---------------------------------------------------------------------------
  // Aggregates over the history
  // ---------------------------------------------------------------------------

  function SumNat(h: seq<ComparisonRecord>, f: ComparisonRecord -> nat): nat {
    if h == [] then 0 else f(h[0]) + SumNat(h[1..], f)
  }

  function Sum(h: seq<ComparisonRecord>, f: ComparisonRecord -> real): real {
    if h == [] then 0.0 else f(h[0]) + Sum(h[1..], f)
  }

  /** `np.mean` of one value per record. */
  function Mean(h: seq<ComparisonRecord>, f: ComparisonRecord -> real): (m: real)
    requires h != []
    ensures m * |h| as real == Sum(h, f)
  {
    Sum(h, f) / |h| as real
  }

  lemma {:induction false} SumNatAppend(h: seq<ComparisonRecord>, r: ComparisonRecord, f: ComparisonRecord -> nat)
    ensures SumNat(h + [r], f) == SumNat(h, f) + f(r)
  {
    if h == [] {
      assert [r][1..] == [];
    } else {
      assert (h + [r])[1..] == h[1..] + [r];
      SumNatAppend(h[1..], r, f);
    }
  }

  lemma {:induction false} SumBounds(h: seq<ComparisonRecord>, f: ComparisonRecord -> real, lo: real, hi: real)
    requires forall k :: 0 <= k < |h| ==> lo <= f(h[k]) <= hi
    ensures lo * |h| as real <= Sum(h, f) <= hi * |h| as real
  {
    if h != [] {
      assert forall k :: 0 <= k < |h[1..]| ==> h[1..][k] == h[k + 1];
      SumBounds(h[1..], f, lo, hi);
      var n := |h[1..]| as real;
      assert |h| as real == n + 1.0;
      assert lo * (n + 1.0) == lo * n + lo && hi * (n + 1.0) == hi * n + hi;
      assert Sum(h, f) == f(h[0]) + Sum(h[1..], f);
      assert lo <= f(h[0]) <= hi;
    }
  }

  /** A mean of values inside `[lo, hi]` lies inside `[lo, hi]`. */
  lemma MeanBounds(h: seq<ComparisonRecord>, f: ComparisonRecord -> real, lo: real, hi: real)
    requires h != []
    requires forall k :: 0 <= k < |h| ==> lo <= f(h[k]) <= hi
    ensures lo <= Mean(h, f) <= hi
  {
    SumBounds(h, f, lo, hi);
    var n := |h| as real;
    assert Sum(h, f) / n * n == Sum(h, f);
  }

  function DifferenceCount(r: ComparisonRecord): nat { |r.comparison.differences| }

  function MatchingRateOf(r: ComparisonRecord): real { r.comparison.matchingRate }

  function SimilarityScoreOf(r: ComparisonRecord): real { r.comparison.similarityScore }

  function CommonCount(r: ComparisonRecord): nat { |r.comparison.commonWords| }

  function CommonCountReal(r: ComparisonRecord): real { |r.comparison.commonWords| as real }

  function UniqueEasyCount(r: ComparisonRecord): real { |r.comparison.uniqueEasy| as real }

  function UniquePaddleCount(r: ComparisonRecord): real { |r.comparison.uniquePaddle| as real }

  lemma {:induction false} CommonCountSum(h: seq<ComparisonRecord>)
    ensures Sum(h, CommonCountReal) == SumNat(h, CommonCount) as real
  {
    if h != [] {
      CommonCountSum(h[1..]);
    }
  }

  /** `sum(len(c["differences"]) for c in history)`. */
  function TotalDifferences(h: seq<ComparisonRecord>): nat {
    SumNat(h, DifferenceCount)
  }

  /** `set().union(*[c["common_words"] for c in comparisons])`. */
  function CommonWordsUnion(h: seq<ComparisonRecord>): (u: set<string>)
    ensures forall k :: 0 <= k < |h| ==> h[k].comparison.commonWords <= u
    ensures forall w :: w in u ==> exists k :: 0 <= k < |h| && w in h[k].comparison.commonWords
    ensures |u| <= SumNat(h, CommonCount)
  {
    if h == [] then {}
    else
      var rest := CommonWordsUnion(h[1..]);
      assert forall k :: 1 <= k < |h| ==> h[k] == h[1..][k - 1];
      h[0].comparison.commonWords + rest
  }

  /** Every record of the history is one `compare_ocr_results` could have stored. */
  predicate AllValid(h: seq<ComparisonRecord>) {
    forall k :: 0 <= k < |h| ==> RecordValid(h[k])
  }

  lemma AllValidAppend(h: seq<ComparisonRecord>, r: ComparisonRecord)
    requires AllValid(h) && RecordValid(r)
    ensures AllValid(h + [r])
  {
    assert forall k :: 0 <= k < |h| ==> (h + [r])[k] == h[k];
  }

  /** The averaged rates of a history of valid records lie in [0, 1]. */
  lemma AverageRatesBounded(h: seq<ComparisonRecord>)
    requires h != []
    ensures AllValid(h) ==> 0.0 <= Mean(h, MatchingRateOf) <= 1.0 && 0.0 <= Mean(h, SimilarityScoreOf) <= 1.0
  {
    if AllValid(h) {
      MeanBounds(h, MatchingRateOf, 0.0, 1.0);
      MeanBounds(h, SimilarityScoreOf, 0.0, 1.0);
    }
  }

  /** No more distinct common words exist than the per-record counts add up to. */
  lemma CommonWordsUnionBound(h: seq<ComparisonRecord>)
    requires h != []
    ensures |CommonWordsUnion(h)| as real <= Mean(h, CommonCountReal) * |h| as real
  {
    CommonCountSum(h);
  }

  /** The result of `generate_statistics` on a non-empty history. */
  datatype Statistics = Statistics(
    totalPages: nat,
    averageMatchingRate: real,
    totalDifferences: nat,
    easyWordCounts: seq<nat>,
    paddleWordCounts: seq<nat>)

  /** The result of `get_detailed_statistics` on a non-empty history. */
  datatype DetailedStatistics = DetailedStatistics(
    totalComparisons: nat,
    averageMatchingRate: real,
    averageSimilarityScore: real,
    totalDifferences: nat,
    commonWordsAverageCount: real,
    commonWordsTotalUnique: nat,
    easyUniqueAverage: real,
    paddleUniqueAverage: real)

  /** The history of an `OCRComparisonManager`; `compare_ocr_results` only ever appends to it. */
  class OcrComparisonManager {
    /** Unicode `\w` membership, as `re` applies it in `[\w]+`. */
    const isWordChar: char -> bool
    var comparisonHistory: seq<ComparisonRecord>

    ghost predicate Valid()
      reads this
    {
      AllValid(comparisonHistory)
    }

    constructor(isWordChar: char -> bool)
      ensures this.isWordChar == isWordChar
      ensures comparisonHistory == []
      ensures Valid()
    {
      this.isWordChar := isWordChar;
      comparisonHistory := [];
    }

    /**
     * `compare_ocr_results`: compares the two texts, appends exactly one
     * record and returns its `comparison` part; earlier records stay as they were.
     */
    method CompareOcrResults(easyText: string, paddleText: string) returns (c: Comparison)
      requires Valid()
      modifies this
      ensures Valid()
      ensures comparisonHistory == old(comparisonHistory) + [RecordOf(easyText, paddleText, isWordChar)]
      ensures c == RecordOf(easyText, paddleText, isWordChar).comparison
      ensures TotalDifferences(comparisonHistory) == TotalDifferences(old(comparisonHistory)) + |c.differences|
    {
      var easyWords := Tokenize(easyText, isWordChar);
      var paddleWords := Tokenize(paddleText, isWordChar);
      var differences := FindDifferences(easyWords, paddleWords);
      var matchingRate := MatchingRate(easyWords, paddleWords);
      var similarityScore := SimilarityScore(easyText, paddleText);
      var analysis := AnalyzeWords(easyWords, paddleWords);
      c := Comparison(matchingRate, similarityScore, differences,
                      analysis.commonWords, analysis.uniqueEasy, analysis.uniquePaddle);
      var record := ComparisonRecord(
        EngineResult(easyText, |easyWords|, |easyText|),
        EngineResult(paddleText, |paddleWords|, |paddleText|),
        c);
      assert record == RecordOf(easyText, paddleText, isWordChar);
      SumNatAppend(comparisonHistory, record, DifferenceCount);
      AllValidAppend(comparisonHistory, record);
      comparisonHistory := comparisonHistory + [record];
    }

    /** `generate_statistics`: `None` stands for the empty dict returned on an empty history. */
    function GenerateStatistics(): (s: Option<Statistics>)
      reads this
      ensures s.None? <==> comparisonHistory == []
      ensures s.Some? ==> s.value.totalPages == |comparisonHistory|
      ensures s.Some? ==> s.value.totalDifferences == TotalDifferences(comparisonHistory)
      ensures s.Some? ==> |s.value.easyWordCounts| == |comparisonHistory| == |s.value.paddleWordCounts|
      ensures s.Some? ==> forall k :: 0 <= k < |comparisonHistory| ==>
                s.value.easyWordCounts[k] == comparisonHistory[k].easyocr.wordCount &&
                s.value.paddleWordCounts[k] == comparisonHistory[k].paddleocr.wordCount
      ensures s.Some? ==> s.value.averageMatchingRate == Mean(comparisonHistory, MatchingRateOf)
      ensures s.Some? && Valid() ==> 0.0 <= s.value.averageMatchingRate <= 1.0
    {
      var h := comparisonHistory;
      if h == [] then None
      else
        AverageRatesBounded(h);
        Some(Statistics(
          |h|,
          Mean(h, MatchingRateOf),
          TotalDifferences(h),
          seq(|h|, k requires 0 <= k < |h| => h[k].easyocr.wordCount),
          seq(|h|, k requires 0 <= k < |h| => h[k].paddleocr.wordCount)))
    }

    /** `get_detailed_statistics`: `None` stands for the empty dict returned on an empty history. */
    function GetDetailedStatistics(): (s: Option<DetailedStatistics>)
      reads this
      ensures s.None? <==> comparisonHistory == []
      ensures s.Some? ==> s.value.totalComparisons == |comparisonHistory|
      ensures s.Some? ==> s.value.totalDifferences == TotalDifferences(comparisonHistory)
      ensures s.Some? ==> s.value.commonWordsTotalUnique == |CommonWordsUnion(comparisonHistory)|
      ensures s.Some? ==> s.value.averageMatchingRate == Mean(comparisonHistory, MatchingRateOf)
      ensures s.Some? ==> s.value.averageSimilarityScore == Mean(comparisonHistory, SimilarityScoreOf)
      ensures s.Some? ==> s.value.commonWordsAverageCount == Mean(comparisonHistory, CommonCountReal)
      ensures s.Some? ==> s.value.easyUniqueAverage == Mean(comparisonHistory, UniqueEasyCount)
      ensures s.Some? ==> s.value.paddleUniqueAverage == Mean(comparisonHistory, UniquePaddleCount)
      ensures s.Some? && Valid() ==>
                && 0.0 <= s.value.averageMatchingRate <= 1.0
                && 0.0 <= s.value.averageSimilarityScore <= 1.0
    {
      var h := comparisonHistory;
      if h == [] then None
      else
        AverageRatesBounded(h);
        Some(DetailedStatistics(
          |h|,
          Mean(h, MatchingRateOf),
          Mean(h, SimilarityScoreOf),
          TotalDifferences(h),
          Mean(h, CommonCountReal),
          |CommonWordsUnion(h)|,
          Mean(h, UniqueEasyCount),
          Mean(h, UniquePaddleCount)))
    }
  }
}
