/**
 * The pieces of Python's `str` and `re` behaviour that the OCR code relies on:
 * the whitespace class (`str.isspace`, `\s`), maximal runs of a character class
 * (`re.findall(r'[...]+')`, `str.split()`), `str.join`, `str.split('\n')`,
 * `str.strip()`, `re.sub(r'\s+', ' ', ...)`, single-character `str.replace`
 * and decimal formatting of page numbers.
 */
module Strings {

  /** Python's `str.isspace`, which is also the `\s` class of a `str` pattern. */
  predicate IsSpace(c: char) {
    || ('\t' <= c <= '\r')
    || ('\U{1C}' <= c <= '\U{1F}')
    || c == ' '
    || c == '\U{85}'
    || c == '\U{A0}'
    || c == '\U{1680}'
    || ('\U{2000}' <= c <= '\U{200A}')
    || c == '\U{2028}'
    || c == '\U{2029}'
    || c == '\U{202F}'
    || c == '\U{205F}'
    || c == '\U{3000}'
  }

  predicate NotSpace(c: char) { !IsSpace(c) }

  /** The regex class `[0-9]`. */
  predicate IsAsciiDigit(c: char) { '0' <= c <= '9' }

  /** The regex class `[a-zA-Z0-9]`. */
  predicate IsAsciiAlnum(c: char) { 'a' <= c <= 'z' || 'A' <= c <= 'Z' || IsAsciiDigit(c) }

  predicate NotAsciiAlnum(c: char) { !IsAsciiAlnum(c) }

  predicate AllSatisfy(s: string, p: char -> bool) {
    forall i :: 0 <= i < |s| ==> p(s[i])
  }

  predicate NoneSatisfy(s: string, p: char -> bool) {
    forall i :: 0 <= i < |s| ==> !p(s[i])
  }

  function Concat<T>(xss: seq<seq<T>>): seq<T> {
    if xss == [] then [] else xss[0] + Concat(xss[1..])
  }

  lemma {:induction false} ConcatAppend<T>(xss: seq<seq<T>>, yss: seq<seq<T>>)
    ensures Concat(xss + yss) == Concat(xss) + Concat(yss)
  {
    if xss != [] {
      assert (xss + yss)[1..] == xss[1..] + yss;
      ConcatAppend(xss[1..], yss);
    } else {
      assert xss + yss == yss;
    }
  }

  // ---------------------------------------------------------------------------
  // Maximal runs of a character class
  // ---------------------------------------------------------------------------

  /** Length of the longest prefix of `s` whose characters all satisfy `p`. */
  function RunLength(s: string, p: char -> bool): (n: nat)
    ensures n <= |s|
    ensures AllSatisfy(s[..n], p)
    ensures n < |s| ==> !p(s[n])
  {
    if s == [] || !p(s[0]) then 0
    else
      var n := 1 + RunLength(s[1..], p);
      assert s[..n] == [s[0]] + s[1..][..n - 1];
      n
  }

  /**
   * The maximal runs of characters satisfying `p`, left to right: what
   * `re.findall(r'[C]+', s)` returns for a character class C, and what
   * `s.split()` returns when `p` is "not whitespace".
   */
  function Runs(s: string, p: char -> bool): (r: seq<string>)
    ensures forall w :: w in r ==> w != [] && AllSatisfy(w, p)
    decreases |s|
  {
    if s == [] then []
    else if !p(s[0]) then Runs(s[1..], p)
    else
      var n := RunLength(s, p);
      [s[..n]] + Runs(s[n..], p)
  }

  /** `str.split()` with no argument. */
  function SplitWords(s: string): (r: seq<string>)
    ensures forall w :: w in r ==> w != [] && AllSatisfy(w, NotSpace)
  {
    Runs(s, NotSpace)
  }

  lemma {:induction false} RunLengthStopsAt(x: string, c: char, y: string, p: char -> bool)
    requires !p(c)
    ensures RunLength(x + [c] + y, p) == RunLength(x, p)
  {
    if x == [] {
    } else {
      assert (x + [c] + y)[0] == x[0];
      if p(x[0]) {
        assert (x + [c] + y)[1..] == x[1..] + [c] + y;
        RunLengthStopsAt(x[1..], c, y, p);
      }
    }
  }

  /** A character outside the class separates runs: the runs of the two sides are kept apart. */
  lemma {:induction false} RunsSeparated(x: string, c: char, y: string, p: char -> bool)
    requires !p(c)
    ensures Runs(x + [c] + y, p) == Runs(x, p) + Runs(y, p)
    decreases |x|
  {
    var s := x + [c] + y;
    if x == [] {
      assert s[1..] == y;
    } else if !p(x[0]) {
      assert s[0] == x[0];
      assert s[1..] == x[1..] + [c] + y;
      RunsSeparated(x[1..], c, y, p);
    } else {
      assert s[0] == x[0];
      RunLengthStopsAt(x, c, y, p);
      var n := RunLength(x, p);
      assert s[..n] == x[..n];
      assert s[n..] == x[n..] + [c] + y;
      RunsSeparated(x[n..], c, y, p);
    }
  }

  /** A non-empty string made only of class characters is a single run. */
  lemma {:induction false} RunsOfRun(w: string, p: char -> bool)
    requires w != [] && AllSatisfy(w, p)
    ensures Runs(w, p) == [w]
  {
    RunLengthWhole(w, p);
    assert w[..|w|] == w;
    assert w[|w|..] == [];
  }

  lemma {:induction false} RunLengthWhole(w: string, p: char -> bool)
    requires AllSatisfy(w, p)
    ensures RunLength(w, p) == |w|
  {
    if w != [] {
      assert AllSatisfy(w[1..], p);
      RunLengthWhole(w[1..], p);
    }
  }

  /** A string with no class character has no runs. */
  lemma {:induction false} RunsOfNone(s: string, p: char -> bool)
    requires NoneSatisfy(s, p)
    ensures Runs(s, p) == []
  {
    if s != [] {
      assert NoneSatisfy(s[1..], p);
      RunsOfNone(s[1..], p);
    }
  }

  /** The runs, concatenated, are exactly the class characters of `s` in order. */
  lemma {:induction false} RunsConcat(s: string, p: char -> bool)
    ensures Concat(Runs(s, p)) == Filter(s, p)
    decreases |s|
  {
    if s == [] {
    } else if !p(s[0]) {
      RunsConcat(s[1..], p);
    } else {
      var n := RunLength(s, p);
      RunsConcat(s[n..], p);
      assert [s[..n]] + Runs(s[n..], p) == Runs(s, p);
      assert Concat(Runs(s, p)) == s[..n] + Concat(Runs(s[n..], p));
      FilterAll(s[..n], p);
      FilterAppend(s[..n], s[n..], p);
      assert s[..n] + s[n..] == s;
    }
  }

  /** The characters of `s` that satisfy `p`, in order. */
  function Filter(s: string, p: char -> bool): (r: string)
    ensures |r| <= |s|
    ensures AllSatisfy(r, p)
  {
    if s == [] then [] else (if p(s[0]) then [s[0]] else []) + Filter(s[1..], p)
  }

  lemma {:induction false} FilterAppend(x: string, y: string, p: char -> bool)
    ensures Filter(x + y, p) == Filter(x, p) + Filter(y, p)
  {
    if x != [] {
      assert (x + y)[0] == x[0];
      assert (x + y)[1..] == x[1..] + y;
      FilterAppend(x[1..], y, p);
    } else {
      assert x + y == y;
    }
  }

  lemma {:induction false} FilterAll(x: string, p: char -> bool)
    requires AllSatisfy(x, p)
    ensures Filter(x, p) == x
  {
    if x != [] {
      assert AllSatisfy(x[1..], p);
      FilterAll(x[1..], p);
    }
  }

  // ---------------------------------------------------------------------------
  // str.join and str.split(sep)
  // ---------------------------------------------------------------------------

  /** `sep.join(parts)`. */
  function Join(parts: seq<string>, sep: string): string {
    if parts == [] then ""
    else if |parts| == 1 then parts[0]
    else parts[0] + sep + Join(parts[1..], sep)
  }

  lemma {:induction false} JoinAppend(parts: seq<string>, w: string, sep: string)
    requires parts != []
    ensures Join(parts + [w], sep) == Join(parts, sep) + sep + w
  {
    if |parts| == 1 {
      assert (parts + [w])[1..] == [w];
    } else {
      assert (parts + [w])[1..] == parts[1..] + [w];
      JoinAppend(parts[1..], w, sep);
    }
  }

  /** Every part followed by `sep`, as a loop writing `part + sep` for each part produces. */
  function Terminated(parts: seq<string>, sep: string): string
    decreases |parts|
  {
    if parts == [] then "" else Terminated(parts[..|parts| - 1], sep) + parts[|parts| - 1] + sep
  }

  /** Writing every part followed by the separator is joining with one more, empty, part. */
  lemma {:induction false} TerminatedIsJoin(parts: seq<string>, sep: string)
    ensures Terminated(parts, sep) == Join(parts + [""], sep)
    decreases |parts|
  {
    if parts == [] {
      assert parts + [""] == [""];
    } else {
      var init := parts[..|parts| - 1];
      var last := parts[|parts| - 1];
      assert parts == init + [last];
      JoinAppend(parts, "", sep);
      var joined := Join(parts, sep);
      assert Join(parts + [""], sep) == joined + sep;
      if init == [] {
        assert joined == last;
      } else {
        TerminatedIsJoin(init, sep);
        JoinAppend(init, "", sep);
        JoinAppend(init, last, sep);
        var front := Join(init, sep);
        assert Terminated(init, sep) == front + sep;
        assert joined == front + sep + last;
        calc {
          Terminated(parts, sep);
          Terminated(init, sep) + last + sep;
          front + sep + last + sep;
          joined + sep;
        }
      }
    }
  }

  lemma {:induction false} JoinLength(parts: seq<string>, sep: string)
    requires parts != []
    ensures |Join(parts, sep)| == SumLengths(parts) + (|parts| - 1) * |sep|
  {
    if |parts| > 1 {
      JoinLength(parts[1..], sep);
    }
  }

  function SumLengths(parts: seq<string>): nat {
    if parts == [] then 0 else |parts[0]| + SumLengths(parts[1..])
  }

  /** The runs of every part, one after the other. */
  function RunsOfAll(parts: seq<string>, p: char -> bool): seq<string> {
    if parts == [] then [] else Runs(parts[0], p) + RunsOfAll(parts[1..], p)
  }

  lemma {:induction false} RunsOfAllAppend(parts: seq<string>, x: string, p: char -> bool)
    ensures RunsOfAll(parts + [x], p) == RunsOfAll(parts, p) + Runs(x, p)
  {
    if parts == [] {
      assert [x][1..] == [];
    } else {
      assert (parts + [x])[1..] == parts[1..] + [x];
      RunsOfAllAppend(parts[1..], x, p);
    }
  }

  /** A joined string has a property of characters when its parts and the separator have it. */
  lemma {:induction false} JoinAllSatisfy(parts: seq<string>, sep: string, q: char -> bool)
    requires AllSatisfy(sep, q)
    requires forall k :: 0 <= k < |parts| ==> AllSatisfy(parts[k], q)
    ensures AllSatisfy(Join(parts, sep), q)
  {
    if |parts| > 1 {
      JoinAllSatisfy(parts[1..], sep, q);
      var rest := Join(parts[1..], sep);
      assert AllSatisfy(parts[0], q);
      assert forall i :: 0 <= i < |parts[0] + sep + rest| ==>
        (parts[0] + sep + rest)[i] in parts[0] || (parts[0] + sep + rest)[i] in sep || (parts[0] + sep + rest)[i] in rest;
    }
  }

  /** Joining with a separator outside the class keeps the runs of each part apart. */
  lemma {:induction false} RunsOfJoin(parts: seq<string>, sep: char, p: char -> bool)
    requires !p(sep)
    ensures Runs(Join(parts, [sep]), p) == RunsOfAll(parts, p)
  {
    if |parts| > 1 {
      RunsSeparated(parts[0], sep, Join(parts[1..], [sep]), p);
      RunsOfJoin(parts[1..], sep, p);
    } else if |parts| == 1 {
      assert RunsOfAll(parts, p) == Runs(parts[0], p) + [];
    }
  }

  /** Splitting joined words gives the words back when the words are runs of the class. */
  lemma {:induction false} RunsOfAllWords(words: seq<string>, p: char -> bool)
    requires forall w :: w in words ==> w != [] && AllSatisfy(w, p)
    ensures RunsOfAll(words, p) == words
  {
    if words != [] {
      assert words[0] in words;
      RunsOfRun(words[0], p);
      assert forall w :: w in words[1..] ==> w in words;
      RunsOfAllWords(words[1..], p);
    }
  }

  /** `s.split(sep)` for a one-character separator: keeps empty pieces, `"".split(sep) == [""]`. */
  function SplitOn(s: string, sep: char): (r: seq<string>)
    ensures r != []
    ensures forall piece :: piece in r ==> sep !in piece
    decreases |s|
  {
    if s == [] then [""]
    else
      var rest := SplitOn(s[1..], sep);
      if s[0] == sep then [""] + rest
      else [[s[0]] + rest[0]] + rest[1..]
  }

  /** Splitting undoes joining. */
  lemma {:induction false} JoinSplitOn(s: string, sep: char)
    ensures Join(SplitOn(s, sep), [sep]) == s
    decreases |s|
  {
    if s != [] {
      var rest := SplitOn(s[1..], sep);
      JoinSplitOn(s[1..], sep);
      if s[0] == sep {
        assert SplitOn(s, sep) == [""] + rest;
        assert (["" ] + rest)[1..] == rest;
      } else {
        var r := SplitOn(s, sep);
        var head := [s[0]] + rest[0];
        assert r == [head] + rest[1..];
        if |rest| == 1 {
          assert r == [head];
          assert Join(rest, [sep]) == rest[0];
          assert s == [s[0]] + s[1..];
        } else {
          var tail := Join(rest[1..], [sep]);
          assert r[1..] == rest[1..];
          calc {
            Join(r, [sep]);
            head + [sep] + tail;
            [s[0]] + (rest[0] + [sep] + tail);
            { assert Join(rest, [sep]) == rest[0] + [sep] + tail; }
            [s[0]] + s[1..];
            s;
          }
        }
      }
    }
  }

  /** Joining undoes splitting when no part holds the separator. */
  lemma {:induction false} SplitOnJoin(parts: seq<string>, sep: char)
    requires parts != []
    requires forall piece :: piece in parts ==> sep !in piece
    ensures SplitOn(Join(parts, [sep]), sep) == parts
    decreases |parts|, |parts[0]|
  {
    var p0 := parts[0];
    if p0 == [] {
      if |parts| > 1 {
        assert Join(parts, [sep]) == [sep] + Join(parts[1..], [sep]);
        assert (Join(parts, [sep]))[1..] == Join(parts[1..], [sep]);
        SplitOnJoin(parts[1..], sep);
        assert parts == [""] + parts[1..];
      }
    } else {
      var tail := [p0[1..]] + parts[1..];
      assert p0[0] != sep by { assert p0[0] in p0; }
      assert sep !in p0 by { assert p0 in parts; }
      assert forall piece :: piece in tail ==> sep !in piece by {
        forall piece | piece in tail ensures sep !in piece {
          if piece == p0[1..] {
            assert p0 == [p0[0]] + piece;
          } else {
            assert piece in parts;
          }
        }
      }
      SplitOnJoin(tail, sep);
      var j := Join(parts, [sep]);
      assert j == [p0[0]] + Join(tail, [sep]) by {
        if |parts| == 1 {
          assert tail == [p0[1..]];
        } else {
          assert tail[1..] == parts[1..];
          assert p0 == [p0[0]] + p0[1..];
        }
      }
      assert j[1..] == Join(tail, [sep]);
      assert j[0] == p0[0];
      assert SplitOn(j, sep) == [[p0[0]] + p0[1..]] + tail[1..];
      assert [p0[0]] + p0[1..] == p0;
      assert tail[1..] == parts[1..];
      assert parts == [p0] + parts[1..];
    }
  }

  // ---------------------------------------------------------------------------
  // str.strip() and re.sub(r'\s+', ' ', s)
  // ---------------------------------------------------------------------------

  /** `s.lstrip()`: drops the leading whitespace. */
  function StripStart(s: string): (r: string)
    ensures |r| <= |s| && r == s[|s| - |r|..]
    ensures AllSatisfy(s[..|s| - |r|], IsSpace)
    ensures r == [] || !IsSpace(r[0])
  {
    s[RunLength(s, IsSpace)..]
  }

  /** `s.rstrip()`: drops the trailing whitespace. */
  function StripEnd(s: string): (r: string)
    ensures |r| <= |s| && r == s[..|r|]
    ensures AllSatisfy(s[|r|..], IsSpace)
    ensures r == [] || !IsSpace(r[|r| - 1])
  {
    if s == [] || !IsSpace(s[|s| - 1]) then s
    else
      var r := StripEnd(s[..|s| - 1]);
      assert s[..|s| - 1][..|r|] == s[..|r|];
      assert s[|r|..] == s[..|s| - 1][|r|..] + [s[|s| - 1]];
      r
  }

  /** `s.strip()`; `StripIsInfix` states what it cuts off. */
  function Strip(s: string): (r: string)
    ensures |r| <= |s|
    ensures r == [] || (!IsSpace(r[0]) && !IsSpace(r[|r| - 1]))
    ensures forall c :: c in r ==> c in s
  {
    var t := StripStart(s);
    var r := StripEnd(t);
    assert forall c :: c in r ==> c in t;
    r
  }

  /** `strip()` is the infix of `s` left after cutting off whitespace, and only whitespace, at both ends. */
  lemma StripIsInfix(s: string)
    ensures exists i :: 0 <= i && i + |Strip(s)| <= |s| && Strip(s) == s[i..i + |Strip(s)|]
                        && AllSatisfy(s[..i], IsSpace) && AllSatisfy(s[i + |Strip(s)|..], IsSpace)
  {
    var t := StripStart(s);
    var r := StripEnd(t);
    var i := |s| - |t|;
    assert r == s[i..i + |r|];
    assert s[i + |r|..] == t[|r|..];
  }

  /** Whitespace at the end of a string adds no word to `str.split()`. */
  lemma WordsThenSpaces(x: string, y: string)
    requires AllSatisfy(y, IsSpace)
    ensures SplitWords(x + y) == SplitWords(x)
  {
    if y == [] {
      assert x + y == x;
    } else {
      assert x + y == x + [y[0]] + y[1..];
      RunsSeparated(x, y[0], y[1..], NotSpace);
      assert NoneSatisfy(y[1..], NotSpace);
      RunsOfNone(y[1..], NotSpace);
    }
  }

  /** `strip()` does not change the words `str.split()` sees. */
  lemma StripKeepsWords(s: string)
    ensures SplitWords(Strip(s)) == SplitWords(s)
  {
    var t := StripStart(s);
    StripStartKeepsWords(s);
    StripEndKeepsWords(t);
  }

  lemma StripStartKeepsWords(s: string)
    ensures SplitWords(StripStart(s)) == SplitWords(s)
  {
    var t := StripStart(s);
    assert s == s[..|s| - |t|] + t;
    SpacesThenWords(s[..|s| - |t|], t);
  }

  lemma StripEndKeepsWords(t: string)
    ensures SplitWords(StripEnd(t)) == SplitWords(t)
  {
    var r := StripEnd(t);
    assert t == r + t[|r|..];
    WordsThenSpaces(r, t[|r|..]);
  }

  /** A string whose ends are not whitespace is its own `strip()`. */
  lemma StripUnchanged(s: string)
    requires s == [] || (!IsSpace(s[0]) && !IsSpace(s[|s| - 1]))
    ensures Strip(s) == s
  {
  }

  /** No two neighbouring characters are both whitespace. */
  predicate NoDoubleSpace(s: string) {
    forall i :: 0 < i < |s| ==> !(IsSpace(s[i - 1]) && IsSpace(s[i]))
  }

  /** Every whitespace character is the plain space `' '`. */
  predicate OnlyPlainSpaces(s: string) {
    forall i :: 0 <= i < |s| && IsSpace(s[i]) ==> s[i] == ' '
  }

  /** `re.sub(r'\s+', ' ', s)`: every maximal whitespace run becomes one `' '`. */
  function CollapseWhitespace(s: string): (r: string)
    ensures |r| <= |s|
    ensures s == [] <==> r == []
    ensures s != [] ==> r[0] == if IsSpace(s[0]) then ' ' else s[0]
    decreases |s|
  {
    if s == [] then []
    else if IsSpace(s[0]) then [' '] + CollapseWhitespace(s[RunLength(s, IsSpace)..])
    else [s[0]] + CollapseWhitespace(s[1..])
  }

  /**
   * After collapsing, the only whitespace is single plain spaces, and every
   * other character comes from the input.
   */
  lemma {:induction false} CollapsedIsClean(s: string)
    ensures OnlyPlainSpaces(CollapseWhitespace(s)) && NoDoubleSpace(CollapseWhitespace(s))
    ensures forall c :: c in CollapseWhitespace(s) ==> c == ' ' || c in s
    decreases |s|
  {
    if s != [] {
      var n := if IsSpace(s[0]) then RunLength(s, IsSpace) else 1;
      var first := if IsSpace(s[0]) then ' ' else s[0];
      var rest := CollapseWhitespace(s[n..]);
      var r := CollapseWhitespace(s);
      CollapsedIsClean(s[n..]);
      assert r == [first] + rest;
      assert rest == [] || !IsSpace(first) || !IsSpace(rest[0]);
      forall i | 0 <= i < |r| ensures IsSpace(r[i]) ==> r[i] == ' ' {
        if i > 0 {
          assert r[i] == rest[i - 1];
        }
      }
      forall i | 0 < i < |r| ensures !(IsSpace(r[i - 1]) && IsSpace(r[i])) {
        if i > 1 {
          assert r[i - 1] == rest[i - 2] && r[i] == rest[i - 1];
        }
      }
      forall c | c in r && c != ' ' ensures c in s {
        if c != first {
          assert c in rest;
          assert c in s[n..];
        }
      }
    }
  }

  /** Collapsing leaves alone a string whose whitespace is already single plain spaces. */
  lemma {:induction false} CollapseUnchanged(s: string)
    requires OnlyPlainSpaces(s) && NoDoubleSpace(s)
    ensures CollapseWhitespace(s) == s
  {
    if s != [] {
      assert OnlyPlainSpaces(s[1..]) && NoDoubleSpace(s[1..]) by {
        assert forall i :: 0 <= i < |s[1..]| ==> s[1..][i] == s[i + 1];
      }
      if IsSpace(s[0]) {
        assert |s| > 1 ==> !IsSpace(s[1]);
        assert RunLength(s, IsSpace) == 1;
      }
      CollapseUnchanged(s[1..]);
    }
  }

  /** Collapsing whitespace does not change the words `str.split()` sees. */
  lemma {:induction false} CollapseKeepsWords(s: string)
    ensures SplitWords(CollapseWhitespace(s)) == SplitWords(s)
    decreases |s|
  {
    if s != [] {
      var p := if IsSpace(s[0]) then IsSpace else NotSpace;
      var n := RunLength(s, p);
      var x, u := s[..n], s[n..];
      assert n > 0 && s == x + u;
      CollapseKeepsWords(u);
      if IsSpace(s[0]) {
        CollapseSpaceStep(x, u);
      } else {
        CollapseWordStep(x, u);
      }
    }
  }

  /** A leading whitespace run: the words are those after it, before and after collapsing. */
  lemma CollapseSpaceStep(x: string, u: string)
    requires x != [] && AllSatisfy(x, IsSpace)
    requires u == [] || !IsSpace(u[0])
    requires SplitWords(CollapseWhitespace(u)) == SplitWords(u)
    ensures SplitWords(CollapseWhitespace(x + u)) == SplitWords(x + u)
  {
    var t := CollapseWhitespace(u);
    CollapseSpaceRun(x, u);
    assert ([' '] + t)[1..] == t;
    SpacesThenWords(x, u);
  }

  /** A whitespace run followed by a non-whitespace character (or nothing) collapses to one space. */
  lemma CollapseSpaceRun(x: string, u: string)
    requires x != [] && AllSatisfy(x, IsSpace)
    requires u == [] || !IsSpace(u[0])
    ensures CollapseWhitespace(x + u) == [' '] + CollapseWhitespace(u)
  {
    RunLengthWhole(x, IsSpace);
    if u == [] {
      assert x + u == x;
    } else {
      assert x + u == x + [u[0]] + u[1..];
      RunLengthStopsAt(x, u[0], u[1..], IsSpace);
    }
    assert (x + u)[0] == x[0];
    assert (x + u)[|x|..] == u;
  }

  /** A leading word: it is the first word, before and after collapsing. */
  lemma CollapseWordStep(w: string, u: string)
    requires w != [] && AllSatisfy(w, NotSpace)
    requires u == [] || IsSpace(u[0])
    requires SplitWords(CollapseWhitespace(u)) == SplitWords(u)
    ensures SplitWords(CollapseWhitespace(w + u)) == SplitWords(w + u)
  {
    var t := CollapseWhitespace(u);
    CollapseNoSpacePrefix(w, u);
    assert t == [] || IsSpace(t[0]);
    RunsAtBoundary(w, t, NotSpace);
    RunsAtBoundary(w, u, NotSpace);
  }

  /** Characters that are not whitespace pass through collapsing unchanged. */
  lemma {:induction false} CollapseNoSpacePrefix(w: string, t: string)
    requires AllSatisfy(w, NotSpace)
    ensures CollapseWhitespace(w + t) == w + CollapseWhitespace(t)
    decreases |w|
  {
    if w == [] {
      assert w + t == t;
    } else {
      var u := w + t;
      assert u[0] == w[0] && u[1..] == w[1..] + t;
      assert AllSatisfy(w[1..], NotSpace) by {
        assert forall k :: 0 <= k < |w[1..]| ==> w[1..][k] == w[k + 1];
      }
      CollapseNoSpacePrefix(w[1..], t);
      assert CollapseWhitespace(u) == [w[0]] + CollapseWhitespace(u[1..]);
      assert [w[0]] + (w[1..] + CollapseWhitespace(t)) == w + CollapseWhitespace(t);
    }
  }

  /** A run followed by a non-class character (or nothing) is the first run. */
  lemma RunsAtBoundary(x: string, t: string, p: char -> bool)
    requires x != [] && AllSatisfy(x, p)
    requires t == [] || !p(t[0])
    ensures Runs(x + t, p) == [x] + Runs(t, p)
  {
    if t == [] {
      assert x + t == x;
      RunsOfRun(x, p);
    } else {
      assert x + t == x + [t[0]] + t[1..];
      RunsSeparated(x, t[0], t[1..], p);
      RunsOfRun(x, p);
    }
  }

  lemma {:induction false} SpacesThenWords(x: string, y: string)
    requires AllSatisfy(x, IsSpace)
    ensures SplitWords(x + y) == SplitWords(y)
    decreases |x|
  {
    if x != [] {
      assert (x + y)[1..] == x[1..] + y;
      assert AllSatisfy(x[1..], IsSpace);
      SpacesThenWords(x[1..], y);
    } else {
      assert x + y == y;
    }
  }

  // ---------------------------------------------------------------------------
  // Single-character replacement, ASCII lower-casing, decimal numbers
  // ---------------------------------------------------------------------------

  /** `s.replace(target, replacement)` for one-character arguments. */
  function ReplaceChar(s: string, target: char, replacement: char): (r: string)
    ensures |r| == |s|
    ensures forall i :: 0 <= i < |s| ==> r[i] == if s[i] == target then replacement else s[i]
  {
    seq(|s|, i requires 0 <= i < |s| => if s[i] == target then replacement else s[i])
  }

  /** `str.lower()` on ASCII letters; other characters are unchanged. */
  function LowerAscii(c: char): char {
    if 'A' <= c <= 'Z' then (c as int - 'A' as int + 'a' as int) as char else c
  }

  function DigitChar(d: nat): (c: char)
    requires d < 10
    ensures IsAsciiDigit(c)
  {
    ('0' as int + d) as char
  }

  function DigitValue(c: char): nat
    requires IsAsciiDigit(c)
  {
    c as int - '0' as int
  }

  /** `str(n)` / `f"{n}"` for a non-negative integer. */
  function NatToString(n: nat): (s: string)
    ensures s != [] && AllSatisfy(s, IsAsciiDigit)
  {
    if n < 10 then [DigitChar(n)] else NatToString(n / 10) + [DigitChar(n % 10)]
  }

  /** Reads a string of decimal digits back as a number. */
  function ParseDecimal(s: string): nat
    requires AllSatisfy(s, IsAsciiDigit)
  {
    if s == [] then 0 else ParseDecimal(s[..|s| - 1]) * 10 + DigitValue(s[|s| - 1])
  }

  /** Decimal formatting is injective: the digits read back as the number. */
  lemma {:induction false} NatToStringRoundTrip(n: nat)
    ensures ParseDecimal(NatToString(n)) == n
  {
    var s := NatToString(n);
    if n >= 10 {
      NatToStringRoundTrip(n / 10);
      assert s[..|s| - 1] == NatToString(n / 10);
    }
  }
}
