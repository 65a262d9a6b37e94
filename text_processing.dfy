/**
 * The OCR text utilities: clean-up of recognised text, greedy word wrapping
 * for display, keyword extraction and a word-set similarity.
 *
 * Unicode NFKC normalisation is a parameter (`nfkc`); the logging and the
 * `except` branches are not modelled.
 */
module TextProcessing {
  import opened Strings
  import SequenceMatcher

  // ---------------------------------------------------------------------------
  // clean_ocr_text
  // ---------------------------------------------------------------------------

  /**
   * The steps of `clean_ocr_text` before normalisation: every whitespace run
   * becomes one space, then every `|` and every `l` becomes `I`.
   */
  function PreNormalize(text: string): (r: string)
    ensures |r| == |CollapseWhitespace(text)|
    ensures forall i :: 0 <= i < |r| ==>
              r[i] == if CollapseWhitespace(text)[i] in {'|', 'l'} then 'I' else CollapseWhitespace(text)[i]
    ensures forall i :: 0 <= i < |r| ==> r[i] != '|' && r[i] != 'l'
    ensures OnlyPlainSpaces(r) && NoDoubleSpace(r)
  {
    CollapsedIsClean(text);
    ReplaceChar(ReplaceChar(CollapseWhitespace(text), '|', 'I'), 'l', 'I')
  }

  /** `re.sub(r'^[^a-zA-Z0-9]+', '', s)`. */
  function TrimLeading(s: string): (r: string)
    ensures |r| <= |s| && r == s[|s| - |r|..]
    ensures NoneSatisfy(s[..|s| - |r|], IsAsciiAlnum)
    ensures r == [] || IsAsciiAlnum(r[0])
  {
    var n := RunLength(s, NotAsciiAlnum);
    s[n..]
  }

  /** `re.sub(r'[^a-zA-Z0-9]+$', '', s)`. */
  function TrimTrailing(s: string): (r: string)
    ensures |r| <= |s| && r == s[..|r|]
    ensures NoneSatisfy(s[|r|..], IsAsciiAlnum)
    ensures r == [] || IsAsciiAlnum(r[|r| - 1])
    decreases |s|
  {
    if s == [] || IsAsciiAlnum(s[|s| - 1]) then s
    else
      var r := TrimTrailing(s[..|s| - 1]);
      assert s[..|s| - 1][..|r|] == s[..|r|];
      assert s[|r|..] == s[..|s| - 1][|r|..] + [s[|s| - 1]];
      r
  }

  /**
   * `clean_ocr_text`: the result is the normalised text without the runs
   * of characters other than ASCII letters and digits at its two ends. It is
   * empty or starts and ends with an ASCII letter or digit, and it keeps
   * every ASCII letter and digit of the normalised text, in order.
   */
  function CleanOcrText(text: string, nfkc: string -> string): (r: string)
    ensures r == [] || (IsAsciiAlnum(r[0]) && IsAsciiAlnum(r[|r| - 1]))
    ensures Filter(r, IsAsciiAlnum) == Filter(nfkc(PreNormalize(text)), IsAsciiAlnum)
    ensures exists i, j :: 0 <= i <= j <= |nfkc(PreNormalize(text))| && r == nfkc(PreNormalize(text))[i..j]
                           && NoneSatisfy(nfkc(PreNormalize(text))[..i], IsAsciiAlnum)
                           && NoneSatisfy(nfkc(PreNormalize(text))[j..], IsAsciiAlnum)
  {
    var normalized := nfkc(PreNormalize(text));
    var leading := TrimLeading(normalized);
    var trimmed := TrimTrailing(leading);
    TrimKeepsAlnum(normalized);
    TrimIsInfix(normalized);
    assert trimmed != [] ==> trimmed[0] == leading[0] && IsAsciiAlnum(trimmed[0]);
    AlnumNotSpace(trimmed);
    StripUnchanged(trimmed);
    Strip(trimmed)
  }

  /** Trimming both ends leaves an infix, and what it cuts off holds no ASCII letter or digit. */
  lemma TrimIsInfix(s: string)
    ensures exists i, j :: 0 <= i <= j <= |s| && TrimTrailing(TrimLeading(s)) == s[i..j]
                           && NoneSatisfy(s[..i], IsAsciiAlnum) && NoneSatisfy(s[j..], IsAsciiAlnum)
  {
    var t := TrimLeading(s);
    var u := TrimTrailing(t);
    var i := |s| - |t|;
    var j := i + |u|;
    assert u == s[i..j];
    assert s[j..] == t[|u|..];
  }

  lemma AlnumNotSpace(s: string)
    requires s == [] || (IsAsciiAlnum(s[0]) && IsAsciiAlnum(s[|s| - 1]))
    ensures s == [] || (!IsSpace(s[0]) && !IsSpace(s[|s| - 1]))
  {
  }

  /** Trimming both ends removes no ASCII letter or digit. */
  lemma TrimKeepsAlnum(s: string)
    ensures Filter(TrimTrailing(TrimLeading(s)), IsAsciiAlnum) == Filter(s, IsAsciiAlnum)
  {
    var t := TrimLeading(s);
    var u := TrimTrailing(t);
    assert s == s[..|s| - |t|] + t;
    FilterAppend(s[..|s| - |t|], t, IsAsciiAlnum);
    FilterNone(s[..|s| - |t|], IsAsciiAlnum);
    assert t == u + t[|u|..];
    FilterAppend(u, t[|u|..], IsAsciiAlnum);
    FilterNone(t[|u|..], IsAsciiAlnum);
  }

  lemma {:induction false} FilterNone(s: string, p: char -> bool)
    requires NoneSatisfy(s, p)
    ensures Filter(s, p) == []
  {
    if s != [] {
      assert NoneSatisfy(s[1..], p);
      FilterNone(s[1..], p);
    }
  }

  /** The trailing `strip()` of `clean_ocr_text` never changes anything. */
  lemma FinalStripUnchanged(s: string)
    ensures Strip(TrimTrailing(TrimLeading(s))) == TrimTrailing(TrimLeading(s))
  {
    StripUnchanged(TrimTrailing(TrimLeading(s)));
  }

  // ---------------------------------------------------------------------------
  // format_text_for_display
  // ---------------------------------------------------------------------------

  /** The loop state of `format_text_for_display`: `lines`, `current_line`, `current_length`. */
  datatype WrapState = WrapState(lines: seq<string>, current: seq<string>, currentLength: int)

  /** One iteration: the word joins the current line if it fits, otherwise the current line is flushed. */
  function WrapStep(st: WrapState, word: string, maxLength: int): WrapState {
    if st.currentLength + |word| + 1 <= maxLength then
      WrapState(st.lines, st.current + [word], st.currentLength + |word| + 1)
    else
      WrapState(st.lines + [Join(st.current, " ")], [word], |word|)
  }

  /** The loop state after all of `words`. */
  function WrapWords(words: seq<string>, maxLength: int): WrapState
    decreases |words|
  {
    if words == [] then WrapState([], [], 0)
    else WrapStep(WrapWords(words[..|words| - 1], maxLength), words[|words| - 1], maxLength)
  }

  /** The lines after the loop: the current line is flushed if it holds any word. */
  function FinishedLines(st: WrapState): seq<string> {
    st.lines + (if st.current != [] then [Join(st.current, " ")] else [])
  }

  /** `'\n'.join(lines)` after wrapping `words`. */
  function Wrapped(words: seq<string>, maxLength: int): string {
    Join(FinishedLines(WrapWords(words, maxLength)), "\n")
  }

  /** The words `str.split()` can return: non-empty, without whitespace. */
  predicate AreWords(words: seq<string>) {
    forall k :: 0 <= k < |words| ==> words[k] != [] && AllSatisfy(words[k], NotSpace)
  }

  predicate NoNewline(c: char) { c != '\n' }

  /** A line keeps the width unless it is a single word. */
  predicate LineFits(line: string, maxLength: int) {
    |SplitWords(line)| >= 2 ==> |line| <= maxLength
  }

  /**
   * What the loop keeps: the lines and the current line hold the words seen
   * so far in order, no line holds a newline, every line of two or more
   * words fits, `current_length` bounds the current line's width, and the
   * first line is empty exactly when the first word did not fit.
   */
  ghost predicate WrapInvariant(st: WrapState, words: seq<string>, maxLength: int) {
    && RunsOfAll(st.lines, NotSpace) + st.current == words
    && (forall k :: 0 <= k < |st.lines| ==> AllSatisfy(st.lines[k], NoNewline) && LineFits(st.lines[k], maxLength))
    && AreWords(st.current)
    && (|st.current| >= 2 ==> |Join(st.current, " ")| <= maxLength)
    && st.currentLength >= |Join(st.current, " ")|
    && (words == [] ==> st == WrapState([], [], 0))
    && (words != [] ==> st.current != [] && (|words[0]| + 1 > maxLength <==> st.lines != [] && st.lines[0] == []))
  }

  /** Joining words with spaces: the words come back out, and no newline appears. */
  lemma JoinedWords(ws: seq<string>)
    requires AreWords(ws)
    ensures SplitWords(Join(ws, " ")) == ws
    ensures AllSatisfy(Join(ws, " "), NoNewline)
  {
    RunsOfJoin(ws, ' ', NotSpace);
    forall w | w in ws ensures w != [] && AllSatisfy(w, NotSpace) {
      var k :| 0 <= k < |ws| && ws[k] == w;
    }
    RunsOfAllWords(ws, NotSpace);
    forall k | 0 <= k < |ws| ensures AllSatisfy(ws[k], NoNewline) {
      assert AllSatisfy(ws[k], NotSpace);
    }
    JoinAllSatisfy(ws, " ", NoNewline);
  }

  /** A word that fits joins the current line and keeps the invariant. */
  lemma WrapStepJoin(st: WrapState, words: seq<string>, word: string, maxLength: int)
    requires WrapInvariant(st, words, maxLength)
    requires word != [] && AllSatisfy(word, NotSpace)
    requires st.currentLength + |word| + 1 <= maxLength
    ensures WrapInvariant(WrapStep(st, word, maxLength), words + [word], maxLength)
  {
    var st' := WrapStep(st, word, maxLength);
    assert st'.current == st.current + [word];
    if st.current != [] {
      JoinAppend(st.current, word, " ");
    } else {
      assert Join(st'.current, " ") == word;
    }
    assert AreWords(st'.current) by {
      forall k | 0 <= k < |st'.current| ensures st'.current[k] != [] && AllSatisfy(st'.current[k], NotSpace) {
        if k < |st.current| {
          assert st'.current[k] == st.current[k];
        }
      }
    }
    if words != [] {
      assert (words + [word])[0] == words[0];
    }
  }

  /** A word that does not fit flushes the current line and starts a new one, keeping the invariant. */
  lemma WrapStepFlush(st: WrapState, words: seq<string>, word: string, maxLength: int)
    requires WrapInvariant(st, words, maxLength)
    requires word != [] && AllSatisfy(word, NotSpace)
    requires st.currentLength + |word| + 1 > maxLength
    ensures WrapInvariant(WrapStep(st, word, maxLength), words + [word], maxLength)
  {
    var st' := WrapStep(st, word, maxLength);
    var line := Join(st.current, " ");
    assert st'.lines == st.lines + [line];
    JoinedWords(st.current);
    RunsOfAllAppend(st.lines, line, NotSpace);
    assert RunsOfAll(st'.lines, NotSpace) + st'.current == words + [word];
    assert LineFits(line, maxLength);
    forall k | 0 <= k < |st'.lines|
      ensures AllSatisfy(st'.lines[k], NoNewline) && LineFits(st'.lines[k], maxLength)
    {
      if k < |st.lines| {
        assert st'.lines[k] == st.lines[k];
      }
    }
    assert AreWords(st'.current) by {
      assert st'.current == [word];
    }
    assert Join(st'.current, " ") == word;
    if words == [] {
      assert st'.lines == [[]];
    } else {
      assert (words + [word])[0] == words[0];
      if st.lines == [] {
        assert st.current == words;
        assert line != [] by {
          if |st.current| > 1 {
            assert line == st.current[0] + " " + Join(st.current[1..], " ");
          }
        }
      } else {
        assert st'.lines[0] == st.lines[0];
      }
    }
  }

  /** The loop keeps its invariant over any sequence of words. */
  lemma {:induction false} WrapWordsInvariant(words: seq<string>, maxLength: int)
    requires AreWords(words)
    ensures WrapInvariant(WrapWords(words, maxLength), words, maxLength)
    decreases |words|
  {
    if words != [] {
      var init := words[..|words| - 1];
      var word := words[|words| - 1];
      assert AreWords(init) by {
        forall k | 0 <= k < |init| ensures init[k] != [] && AllSatisfy(init[k], NotSpace) {
          assert init[k] == words[k];
        }
      }
      WrapWordsInvariant(init, maxLength);
      var st := WrapWords(init, maxLength);
      assert words == init + [word];
      if st.currentLength + |word| + 1 <= maxLength {
        WrapStepJoin(st, init, word, maxLength);
      } else {
        WrapStepFlush(st, init, word, maxLength);
      }
    }
  }

  /**
   * The promises of `format_text_for_display` about its wrapping: the words
   * are kept in order, every line of two or more words fits `max_length`
   * (only a lone over-long word can exceed it), the first line is empty
   * exactly when the first word does not fit, and no words give "".
   */
  lemma WrappedProperties(words: seq<string>, maxLength: int)
    requires AreWords(words)
    ensures SplitWords(Wrapped(words, maxLength)) == words
    ensures forall line :: line in SplitOn(Wrapped(words, maxLength), '\n') ==> LineFits(line, maxLength)
    ensures words == [] ==> Wrapped(words, maxLength) == []
    ensures words != [] ==> (SplitOn(Wrapped(words, maxLength), '\n')[0] == [] <==> |words[0]| + 1 > maxLength)
  {
    WrapWordsInvariant(words, maxLength);
    var lines := FinishedLines(WrapWords(words, maxLength));
    FinishedLinesProperties(WrapWords(words, maxLength), words, maxLength);
    RunsOfJoin(lines, '\n', NotSpace);
    if lines != [] {
      forall piece | piece in lines ensures '\n' !in piece {
        var k :| 0 <= k < |lines| && lines[k] == piece;
        assert AllSatisfy(lines[k], NoNewline);
      }
      SplitOnJoin(lines, '\n');
      forall line | line in SplitOn(Wrapped(words, maxLength), '\n') ensures LineFits(line, maxLength) {
        var k :| 0 <= k < |lines| && lines[k] == line;
      }
    }
  }

  /** Flushing the current line after the loop keeps the words, the widths and the first-line rule. */
  lemma FinishedLinesProperties(st: WrapState, words: seq<string>, maxLength: int)
    requires WrapInvariant(st, words, maxLength)
    ensures RunsOfAll(FinishedLines(st), NotSpace) == words
    ensures forall k :: 0 <= k < |FinishedLines(st)| ==>
              AllSatisfy(FinishedLines(st)[k], NoNewline) && LineFits(FinishedLines(st)[k], maxLength)
    ensures words == [] <==> FinishedLines(st) == []
    ensures words != [] ==> (FinishedLines(st)[0] == [] <==> |words[0]| + 1 > maxLength)
  {
    var lines := FinishedLines(st);
    if st.current != [] {
      var line := Join(st.current, " ");
      assert lines == st.lines + [line];
      JoinedWords(st.current);
      RunsOfAllAppend(st.lines, line, NotSpace);
      if |st.current| >= 2 {
        assert LineFits(line, maxLength);
      }
      forall k | 0 <= k < |lines| ensures AllSatisfy(lines[k], NoNewline) && LineFits(lines[k], maxLength) {
        if k < |st.lines| {
          assert lines[k] == st.lines[k];
        }
      }
      if st.lines == [] {
        assert line != [] by {
          assert SplitWords(line) != [];
        }
      } else {
        assert lines[0] == st.lines[0];
      }
    } else {
      assert lines == st.lines;
    }
  }

  /** The line-filling loop of `format_text_for_display` over the split words. */
  method WrapLines(words: seq<string>, maxLength: int) returns (r: string)
    ensures r == Wrapped(words, maxLength)
  {
    var lines: seq<string> := [];
    var currentLine: seq<string> := [];
    var currentLength := 0;
    for k := 0 to |words|
      invariant WrapState(lines, currentLine, currentLength) == WrapWords(words[..k], maxLength)
    {
      var word := words[k];
      assert words[..k + 1][..k] == words[..k];
      if currentLength + |word| + 1 <= maxLength {
        currentLine := currentLine + [word];
        currentLength := currentLength + |word| + 1;
      } else {
        lines := lines + [Join(currentLine, " ")];
        currentLine := [word];
        currentLength := |word|;
      }
    }
    if currentLine != [] {
      lines := lines + [Join(currentLine, " ")];
    }
    r := Join(lines, "\n");
    assert words[..|words|] == words;
  }

  /**
   * `format_text_for_display`: cleans the text, splits it into words and
   * fills lines greedily; a word goes on the current line while
   * `current_length + len(word) + 1 <= max_length`.
   */
  method FormatTextForDisplay(text: string, maxLength: int, nfkc: string -> string) returns (r: string)
    ensures r == Wrapped(SplitWords(CleanOcrText(text, nfkc)), maxLength)
    ensures SplitWords(r) == SplitWords(CleanOcrText(text, nfkc))
    ensures forall line :: line in SplitOn(r, '\n') ==> LineFits(line, maxLength)
    ensures SplitWords(CleanOcrText(text, nfkc)) == [] ==> r == []
    ensures var words := SplitWords(CleanOcrText(text, nfkc));
            words != [] ==> (SplitOn(r, '\n')[0] == [] <==> |words[0]| + 1 > maxLength)
  {
    var words := SplitWords(CleanOcrText(text, nfkc));
    r := WrapLines(words, maxLength);
    assert AreWords(words) by {
      forall k | 0 <= k < |words| ensures words[k] != [] && AllSatisfy(words[k], NotSpace) {
        assert words[k] in words;
      }
    }
    WrappedProperties(words, maxLength);
  }

  // ---------------------------------------------------------------------------
  // extract_keywords
  // ---------------------------------------------------------------------------

  /** `word.lower()` for a word of ASCII letters and digits. */
  function LowerWord(w: string): (r: string)
    ensures |r| == |w|
    ensures forall i :: 0 <= i < |w| ==> r[i] == LowerAscii(w[i])
  {
    seq(|w|, i requires 0 <= i < |w| => LowerAscii(w[i]))
  }

  predicate IsLowerAlnum(c: char) { 'a' <= c <= 'z' || IsAsciiDigit(c) }

  /** The keyword a word yields, if any: long enough, then stripped to `[a-zA-Z0-9]`, then lower-cased. */
  function KeywordOf(word: string, minLength: int): (r: seq<string>)
    ensures |r| <= 1
    ensures forall k :: k in r ==> k != [] && AllSatisfy(k, IsLowerAlnum)
    ensures r != [] <==> |word| >= minLength && !NoneSatisfy(word, IsAsciiAlnum)
  {
    if |word| >= minLength then
      var stripped := Filter(word, IsAsciiAlnum);
      FilterEmptyIff(word, IsAsciiAlnum);
      if stripped != [] then [LowerWord(stripped)] else []
    else []
  }

  lemma {:induction false} FilterEmptyIff(s: string, p: char -> bool)
    ensures Filter(s, p) == [] <==> NoneSatisfy(s, p)
  {
    if s != [] {
      FilterEmptyIff(s[1..], p);
      assert NoneSatisfy(s, p) <==> !p(s[0]) && NoneSatisfy(s[1..], p);
    }
  }

  /** The `keywords` list the loop of `extract_keywords` builds, in order and with repeats. */
  function KeywordList(words: seq<string>, minLength: int): (r: seq<string>)
    ensures |r| <= |words|
    ensures forall k :: k in r ==> k != [] && AllSatisfy(k, IsLowerAlnum)
    decreases |words|
  {
    if words == [] then []
    else KeywordList(words[..|words| - 1], minLength) + KeywordOf(words[|words| - 1], minLength)
  }

  /** The keyword-collecting loop of `extract_keywords` over the split words. */
  method CollectKeywords(words: seq<string>, minLength: int) returns (keywords: set<string>)
    ensures keywords == set k | k in KeywordList(words, minLength)
  {
    var list: seq<string> := [];
    for n := 0 to |words|
      invariant list == KeywordList(words[..n], minLength)
    {
      var word := words[n];
      assert words[..n + 1][..n] == words[..n];
      if |word| >= minLength {
        var stripped := Filter(word, IsAsciiAlnum);
        if stripped != [] {
          list := list + [LowerWord(stripped)];
        }
      }
    }
    assert words[..|words|] == words;
    keywords := set k | k in list;
  }

  /** A keyword comes from exactly the words that are long enough and hold an ASCII letter or digit. */
  lemma {:induction false} KeywordListMembers(words: seq<string>, minLength: int, k: string)
    ensures k in KeywordList(words, minLength) <==>
              exists i :: 0 <= i < |words| && |words[i]| >= minLength && Filter(words[i], IsAsciiAlnum) != []
                                           && k == LowerWord(Filter(words[i], IsAsciiAlnum))
    decreases |words|
  {
    if words != [] {
      var init := words[..|words| - 1];
      KeywordListMembers(init, minLength, k);
      FilterEmptyIff(words[|words| - 1], IsAsciiAlnum);
      forall i | 0 <= i < |init| ensures init[i] == words[i] { }
    }
  }

  /**
   * `extract_keywords`: the distinct keywords of the cleaned text's words,
   * each non-empty and made only of `[a-z0-9]`. Python's `list(set(...))`
   * order is not modelled: the result is a set.
   */
  method ExtractKeywords(text: string, minLength: int, nfkc: string -> string) returns (keywords: set<string>)
    ensures keywords == set k | k in KeywordList(SplitWords(CleanOcrText(text, nfkc)), minLength)
    ensures forall k :: k in keywords ==> k != [] && AllSatisfy(k, IsLowerAlnum)
  {
    keywords := CollectKeywords(SplitWords(CleanOcrText(text, nfkc)), minLength);
  }

  /**
   * `min_length` is checked before the non-alphanumeric characters are
   * removed, so a keyword can be shorter than `min_length`: "a-b" passes a
   * minimum of 3 and yields "ab".
   */
  lemma KeywordShorterThanMinimum()
    ensures KeywordList(["a-b"], 3) == ["ab"]
  {
    assert ["a-b"][..0] == [];
    assert Filter("a-b", IsAsciiAlnum) == "ab" by {
      assert "a-b"[1..] == "-b";
      assert "-b"[1..] == "b";
      assert "b"[1..] == "";
    }
    assert LowerWord("ab") == "ab";
  }

  // ---------------------------------------------------------------------------
  // calculate_text_similarity
  // ---------------------------------------------------------------------------

  function Max(x: nat, y: nat): nat { if x >= y then x else y }

  /** `len(words1 & words2) / max(len(words1), len(words2))`, or 0.0 when either set is empty. */
  function SetSimilarity(words1: set<string>, words2: set<string>): (r: real)
    ensures 0.0 <= r <= 1.0
    ensures words1 == {} || words2 == {} ==> r == 0.0
  {
    if |words1| == 0 || |words2| == 0 then 0.0
    else
      SubsetCardinality(words1 * words2, words1);
      SequenceMatcher.FractionBounds(|words1 * words2| as real, Max(|words1|, |words2|) as real);
      (|words1 * words2| as real) / (Max(|words1|, |words2|) as real)
  }

  lemma SubsetCardinality(a: set<string>, b: set<string>)
    requires a <= b
    ensures |a| <= |b|
    ensures |a| == |b| ==> a == b
  {
    if a != b {
      var x :| x in b && x !in a;
      assert a <= b - {x};
      SubsetSmaller(a, b - {x});
    } else {
      SubsetSmaller(a, b);
    }
  }

  lemma {:induction false} SubsetSmaller(a: set<string>, b: set<string>)
    requires a <= b
    ensures |a| <= |b|
    decreases |b|
  {
    if a != {} {
      var x :| x in a;
      SubsetSmaller(a - {x}, b - {x});
    }
  }

  /** The similarity does not depend on the order of its arguments. */
  lemma SetSimilaritySymmetric(words1: set<string>, words2: set<string>)
    ensures SetSimilarity(words1, words2) == SetSimilarity(words2, words1)
  {
    assert words1 * words2 == words2 * words1;
  }

  /** The similarity is 1.0 exactly for equal non-empty word sets. */
  lemma SetSimilarityOneIff(words1: set<string>, words2: set<string>)
    ensures SetSimilarity(words1, words2) == 1.0 <==> words1 == words2 && words1 != {}
  {
    if words1 != {} && words2 != {} {
      var common := words1 * words2;
      var m := Max(|words1|, |words2|);
      SubsetCardinality(common, words1);
      SubsetCardinality(common, words2);
      if SetSimilarity(words1, words2) == 1.0 {
        assert |common| as real == m as real;
        assert common == words1 && common == words2;
      }
      if words1 == words2 {
        assert common == words1;
      }
    }
  }

  /** `calculate_text_similarity`: the similarity of the word sets of both cleaned texts. */
  function TextSimilarity(text1: string, text2: string, nfkc: string -> string): (r: real)
    ensures 0.0 <= r <= 1.0
  {
    var words1 := set w | w in SplitWords(CleanOcrText(text1, nfkc));
    var words2 := set w | w in SplitWords(CleanOcrText(text2, nfkc));
    SetSimilarity(words1, words2)
  }

  lemma TextSimilaritySymmetric(text1: string, text2: string, nfkc: string -> string)
    ensures TextSimilarity(text1, text2, nfkc) == TextSimilarity(text2, text1, nfkc)
  {
    SetSimilaritySymmetric(set w | w in SplitWords(CleanOcrText(text1, nfkc)), set w | w in SplitWords(CleanOcrText(text2, nfkc)));
  }
}
