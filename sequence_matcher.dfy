/**
 * Python's `difflib.SequenceMatcher(None, a, b)` as the OCR comparison uses
 * it: `find_longest_match`, `get_matching_blocks`, `get_opcodes` and
 * `ratio`, over any sequence of comparable elements (OCR words or the
 * characters of a text). No junk predicate is given, so no element is junk;
 * the "popular element" heuristic (`autojunk`, active when `len(b) >= 200`)
 * is not modelled.
 */
module SequenceMatcher {

  /** A matching block `(i, j, size)`: `a[i:i+size] == b[j:j+size]`. */
  datatype Match = Match(a: nat, b: nat, size: nat)

  datatype Tag = Replace | Delete | Insert | Equal

  /** One `(tag, i1, i2, j1, j2)` tuple of `get_opcodes()`. */
  datatype Opcode = Opcode(tag: Tag, i1: nat, i2: nat, j1: nat, j2: nat)

  predicate IsCommonBlock<T(==)>(a: seq<T>, b: seq<T>, m: Match) {
    m.a + m.size <= |a| && m.b + m.size <= |b| && a[m.a..m.a + m.size] == b[m.b..m.b + m.size]
  }

  predicate InRange(m: Match, alo: nat, ahi: nat, blo: nat, bhi: nat) {
    alo <= m.a && m.a + m.size <= ahi && blo <= m.b && m.b + m.size <= bhi
  }

  predicate ValidRange<T>(a: seq<T>, b: seq<T>, alo: nat, ahi: nat, blo: nat, bhi: nat) {
    alo <= ahi <= |a| && blo <= bhi <= |b|
  }

  // ---------------------------------------------------------------------------
  // find_longest_match
  // ---------------------------------------------------------------------------

  /**
   * Length of the common run that ends just before `a[i]` and `b[j]` without
   * reaching below `alo`/`blo`: the value `find_longest_match` stores in
   * `j2len[j - 1]` while it visits row `i - 1`.
   */
  function RunEnding<T(==)>(a: seq<T>, b: seq<T>, alo: nat, blo: nat, i: nat, j: nat): (k: nat)
    requires alo <= i <= |a| && blo <= j <= |b|
    ensures k <= i - alo && k <= j - blo
    decreases i
  {
    if i == alo || j == blo || a[i - 1] != b[j - 1] then 0
    else RunEnding(a, b, alo, blo, i - 1, j - 1) + 1
  }

  /** The run `RunEnding` counts is a common block. */
  lemma {:induction false} RunEndingCommon<T>(a: seq<T>, b: seq<T>, alo: nat, blo: nat, i: nat, j: nat)
    requires alo <= i <= |a| && blo <= j <= |b|
    ensures var k := RunEnding(a, b, alo, blo, i, j); a[i - k..i] == b[j - k..j]
    decreases i
  {
    var k := RunEnding(a, b, alo, blo, i, j);
    if k > 0 {
      RunEndingCommon(a, b, alo, blo, i - 1, j - 1);
      assert a[i - k..i] == a[i - k..i - 1] + [a[i - 1]];
      assert b[j - k..j] == b[j - k..j - 1] + [b[j - 1]];
    }
  }

  /** Every common block inside the range is counted in full by the run ending where it ends. */
  lemma {:induction false} RunEndingAtLeast<T>(a: seq<T>, b: seq<T>, alo: nat, blo: nat, x: nat, y: nat, k: nat)
    requires alo <= x && blo <= y && x + k <= |a| && y + k <= |b|
    requires a[x..x + k] == b[y..y + k]
    ensures RunEnding(a, b, alo, blo, x + k, y + k) >= k
  {
    if k > 0 {
      assert a[x + k - 1] == a[x..x + k][k - 1];
      assert b[y + k - 1] == b[y..y + k][k - 1];
      assert a[x..x + k - 1] == a[x..x + k][..k - 1];
      assert b[y..y + k - 1] == b[y..y + k][..k - 1];
      RunEndingAtLeast(a, b, alo, blo, x, y, k - 1);
    }
  }

  /** Cell `(x, y)` is visited before cell `(i, j)`: rows of `a` outer, columns of `b` inner. */
  predicate Before(x: nat, y: nat, i: nat, j: nat) {
    x < i || (x == i && y < j)
  }

  /**
   * What the scan knows once every cell before `(i, j)` is visited (cells are
   * named by the exclusive ends of the run): no cell seen holds a longer run
   * than `best`, and `best` is the run of the first cell that reached its size.
   */
  ghost predicate ScanInvariant<T>(a: seq<T>, b: seq<T>, alo: nat, ahi: nat, blo: nat, bhi: nat, i: nat, j: nat, best: Match)
    requires ValidRange(a, b, alo, ahi, blo, bhi)
  {
    && InRange(best, alo, ahi, blo, bhi)
    && (best.size == 0 ==> best.a == alo && best.b == blo)
    && (forall x, y {:trigger Before(x, y, i, j)} :: alo < x <= ahi && blo < y <= bhi && Before(x, y, i, j) ==>
          RunEnding(a, b, alo, blo, x, y) <= best.size)
    && (best.size > 0 ==>
          && RunEnding(a, b, alo, blo, best.a + best.size, best.b + best.size) == best.size
          && Before(best.a + best.size, best.b + best.size, i, j)
          && forall x, y {:trigger Before(x, y, best.a + best.size, best.b + best.size)} ::
               alo < x <= ahi && blo < y <= bhi && Before(x, y, best.a + best.size, best.b + best.size) ==>
               RunEnding(a, b, alo, blo, x, y) < best.size)
  }

  /**
   * The double loop of `find_longest_match`: visits every cell in order and
   * replaces the best block only by a strictly longer one.
   */
  function Scan<T(==)>(a: seq<T>, b: seq<T>, alo: nat, ahi: nat, blo: nat, bhi: nat, i: nat, j: nat, best: Match): Match
    requires ValidRange(a, b, alo, ahi, blo, bhi)
    requires alo < i <= ahi + 1 && blo < j <= bhi + 1
    decreases ahi + 1 - i, bhi + 1 - j
  {
    if i > ahi then best
    else if j > bhi then Scan(a, b, alo, ahi, blo, bhi, i + 1, blo + 1, best)
    else
      var k := RunEnding(a, b, alo, blo, i, j);
      Scan(a, b, alo, ahi, blo, bhi, i, j + 1, if k > best.size then Match(i - k, j - k, k) else best)
  }

  /** The scan keeps its invariant to the last cell. */
  lemma {:induction false} ScanKeepsInvariant<T>(a: seq<T>, b: seq<T>, alo: nat, ahi: nat, blo: nat, bhi: nat, i: nat, j: nat, best: Match)
    requires ValidRange(a, b, alo, ahi, blo, bhi)
    requires alo < i <= ahi + 1 && blo < j <= bhi + 1
    requires ScanInvariant(a, b, alo, ahi, blo, bhi, i, j, best)
    ensures ScanInvariant(a, b, alo, ahi, blo, bhi, ahi + 1, blo + 1, Scan(a, b, alo, ahi, blo, bhi, i, j, best))
    decreases ahi + 1 - i, bhi + 1 - j, 1
  {
    if i > ahi {
      ScanDone(a, b, alo, ahi, blo, bhi, j, best);
    } else if j > bhi {
      ScanNextRow(a, b, alo, ahi, blo, bhi, i, best);
      ScanKeepsInvariant(a, b, alo, ahi, blo, bhi, i + 1, blo + 1, best);
      assert Scan(a, b, alo, ahi, blo, bhi, i, j, best) == Scan(a, b, alo, ahi, blo, bhi, i + 1, blo + 1, best);
    } else {
      ScanCellKeepsInvariant(a, b, alo, ahi, blo, bhi, i, j, best);
    }
  }

  /** Visiting cell `(i, j)` and then the rest of the scan keeps the invariant. */
  lemma {:induction false} ScanCellKeepsInvariant<T>(a: seq<T>, b: seq<T>, alo: nat, ahi: nat, blo: nat, bhi: nat, i: nat, j: nat, best: Match)
    requires ValidRange(a, b, alo, ahi, blo, bhi)
    requires alo < i <= ahi && blo < j <= bhi
    requires ScanInvariant(a, b, alo, ahi, blo, bhi, i, j, best)
    ensures ScanInvariant(a, b, alo, ahi, blo, bhi, ahi + 1, blo + 1, Scan(a, b, alo, ahi, blo, bhi, i, j, best))
    decreases ahi + 1 - i, bhi + 1 - j, 0
  {
    var k := RunEnding(a, b, alo, blo, i, j);
    var next := if k > best.size then Match(i - k, j - k, k) else best;
    if k > best.size {
      ScanCellNewBest(a, b, alo, ahi, blo, bhi, i, j, best, k);
    } else {
      ScanCellKeep(a, b, alo, ahi, blo, bhi, i, j, best);
    }
    ScanKeepsInvariant(a, b, alo, ahi, blo, bhi, i, j + 1, next);
    assert Scan(a, b, alo, ahi, blo, bhi, i, j, best) == Scan(a, b, alo, ahi, blo, bhi, i, j + 1, next);
  }

  lemma ScanDone<T>(a: seq<T>, b: seq<T>, alo: nat, ahi: nat, blo: nat, bhi: nat, j: nat, best: Match)
    requires ValidRange(a, b, alo, ahi, blo, bhi)
    requires ScanInvariant(a, b, alo, ahi, blo, bhi, ahi + 1, j, best)
    ensures ScanInvariant(a, b, alo, ahi, blo, bhi, ahi + 1, blo + 1, best)
  {
    forall x, y | alo < x <= ahi && blo < y <= bhi && Before(x, y, ahi + 1, blo + 1)
      ensures RunEnding(a, b, alo, blo, x, y) <= best.size
    {
      assert Before(x, y, ahi + 1, j);
    }
    if best.size > 0 {
      assert Before(best.a + best.size, best.b + best.size, ahi + 1, blo + 1);
    }
  }

  lemma ScanNextRow<T>(a: seq<T>, b: seq<T>, alo: nat, ahi: nat, blo: nat, bhi: nat, i: nat, best: Match)
    requires ValidRange(a, b, alo, ahi, blo, bhi)
    requires alo < i <= ahi
    requires ScanInvariant(a, b, alo, ahi, blo, bhi, i, bhi + 1, best)
    ensures ScanInvariant(a, b, alo, ahi, blo, bhi, i + 1, blo + 1, best)
  {
    forall x, y | alo < x <= ahi && blo < y <= bhi && Before(x, y, i + 1, blo + 1)
      ensures RunEnding(a, b, alo, blo, x, y) <= best.size
    {
      assert Before(x, y, i, bhi + 1);
    }
    if best.size > 0 {
      assert Before(best.a + best.size, best.b + best.size, i + 1, blo + 1);
    }
  }

  lemma ScanCellNewBest<T>(a: seq<T>, b: seq<T>, alo: nat, ahi: nat, blo: nat, bhi: nat, i: nat, j: nat, best: Match, k: nat)
    requires ValidRange(a, b, alo, ahi, blo, bhi)
    requires alo < i <= ahi && blo < j <= bhi
    requires ScanInvariant(a, b, alo, ahi, blo, bhi, i, j, best)
    requires k == RunEnding(a, b, alo, blo, i, j) && k > best.size
    ensures ScanInvariant(a, b, alo, ahi, blo, bhi, i, j + 1, Match(i - k, j - k, k))
  {
    var next := Match(i - k, j - k, k);
    assert next.a + next.size == i && next.b + next.size == j;
    forall x, y | alo < x <= ahi && blo < y <= bhi && Before(x, y, i, j + 1)
      ensures RunEnding(a, b, alo, blo, x, y) <= k
    {
      if !Before(x, y, i, j) {
        assert x == i && y == j;
      }
    }
  }

  lemma ScanCellKeep<T>(a: seq<T>, b: seq<T>, alo: nat, ahi: nat, blo: nat, bhi: nat, i: nat, j: nat, best: Match)
    requires ValidRange(a, b, alo, ahi, blo, bhi)
    requires alo < i <= ahi && blo < j <= bhi
    requires ScanInvariant(a, b, alo, ahi, blo, bhi, i, j, best)
    requires RunEnding(a, b, alo, blo, i, j) <= best.size
    ensures ScanInvariant(a, b, alo, ahi, blo, bhi, i, j + 1, best)
  {
    forall x, y | alo < x <= ahi && blo < y <= bhi && Before(x, y, i, j + 1)
      ensures RunEnding(a, b, alo, blo, x, y) <= best.size
    {
      if !Before(x, y, i, j) {
        assert x == i && y == j;
      }
    }
  }

  /**
   * `m` is what `find_longest_match(alo, ahi, blo, bhi)` promises: a longest
   * common block inside the ranges, the one starting earliest in `a` and,
   * among those, earliest in `b`; `(alo, blo, 0)` when there is none.
   */
  ghost predicate IsLongestMatch<T>(a: seq<T>, b: seq<T>, alo: nat, ahi: nat, blo: nat, bhi: nat, m: Match) {
    && InRange(m, alo, ahi, blo, bhi)
    && IsCommonBlock(a, b, m)
    && (m.size == 0 ==> m.a == alo && m.b == blo)
    && (forall m' :: InRange(m', alo, ahi, blo, bhi) && IsCommonBlock(a, b, m') ==> m'.size <= m.size)
    && (forall m' :: InRange(m', alo, ahi, blo, bhi) && IsCommonBlock(a, b, m') && m'.size == m.size ==>
          m.a < m'.a || (m.a == m'.a && m.b <= m'.b))
  }

  function FindLongestMatch<T(==)>(a: seq<T>, b: seq<T>, alo: nat, ahi: nat, blo: nat, bhi: nat): (m: Match)
    requires ValidRange(a, b, alo, ahi, blo, bhi)
    ensures IsLongestMatch(a, b, alo, ahi, blo, bhi, m)
  {
    var m := Scan(a, b, alo, ahi, blo, bhi, alo + 1, blo + 1, Match(alo, blo, 0));
    ScanKeepsInvariant(a, b, alo, ahi, blo, bhi, alo + 1, blo + 1, Match(alo, blo, 0));
    ScanFindsLongest(a, b, alo, ahi, blo, bhi, m);
    m
  }

  lemma ScanFindsLongest<T>(a: seq<T>, b: seq<T>, alo: nat, ahi: nat, blo: nat, bhi: nat, m: Match)
    requires ValidRange(a, b, alo, ahi, blo, bhi)
    requires ScanInvariant(a, b, alo, ahi, blo, bhi, ahi + 1, blo + 1, m)
    ensures IsLongestMatch(a, b, alo, ahi, blo, bhi, m)
  {
    RunEndingCommon(a, b, alo, blo, m.a + m.size, m.b + m.size);
    forall m' | InRange(m', alo, ahi, blo, bhi) && IsCommonBlock(a, b, m')
      ensures m'.size <= m.size
      ensures m'.size == m.size ==> m.a < m'.a || (m.a == m'.a && m.b <= m'.b)
    {
      ScanBeatsBlock(a, b, alo, ahi, blo, bhi, m, m');
    }
  }

  /** The block the finished scan keeps is at least as long as any other, and first among equals. */
  lemma ScanBeatsBlock<T>(a: seq<T>, b: seq<T>, alo: nat, ahi: nat, blo: nat, bhi: nat, m: Match, m': Match)
    requires ValidRange(a, b, alo, ahi, blo, bhi)
    requires ScanInvariant(a, b, alo, ahi, blo, bhi, ahi + 1, blo + 1, m)
    requires InRange(m', alo, ahi, blo, bhi) && IsCommonBlock(a, b, m')
    ensures m'.size <= m.size
    ensures m'.size == m.size ==> m.a < m'.a || (m.a == m'.a && m.b <= m'.b)
  {
    if m'.size > 0 {
      RunEndingAtLeast(a, b, alo, blo, m'.a, m'.b, m'.size);
      assert Before(m'.a + m'.size, m'.b + m'.size, ahi + 1, blo + 1);
      if m'.size == m.size {
        assert !Before(m'.a + m'.size, m'.b + m'.size, m.a + m.size, m.b + m.size);
      }
    }
  }

  /** Two blocks that both meet the promise of `find_longest_match` are the same block. */
  lemma LongestMatchUnique<T>(a: seq<T>, b: seq<T>, alo: nat, ahi: nat, blo: nat, bhi: nat, m1: Match, m2: Match)
    requires IsLongestMatch(a, b, alo, ahi, blo, bhi, m1)
    requires IsLongestMatch(a, b, alo, ahi, blo, bhi, m2)
    ensures m1 == m2
  {
    assert m1.size <= m2.size && m2.size <= m1.size;
  }

  /**
   * A longest match cannot be extended by one equal element on either side,
   * so the extension loops of `find_longest_match`, which only matter for
   * junk elements, never change its result here.
   */
  lemma LongestMatchNotExtensible<T>(a: seq<T>, b: seq<T>, alo: nat, ahi: nat, blo: nat, bhi: nat, m: Match)
    requires ValidRange(a, b, alo, ahi, blo, bhi)
    requires IsLongestMatch(a, b, alo, ahi, blo, bhi, m)
    ensures !(alo < m.a && blo < m.b && a[m.a - 1] == b[m.b - 1])
    ensures !(m.a + m.size < ahi && m.b + m.size < bhi && a[m.a + m.size] == b[m.b + m.size])
  {
    if alo < m.a && blo < m.b && a[m.a - 1] == b[m.b - 1] {
      assert a[m.a - 1..m.a] == [a[m.a - 1]];
      assert b[m.b - 1..m.b] == [b[m.b - 1]];
      CommonBlocksJoin(a, b, Match(m.a - 1, m.b - 1, 1), m);
    }
    if m.a + m.size < ahi && m.b + m.size < bhi && a[m.a + m.size] == b[m.b + m.size] {
      assert a[m.a + m.size..m.a + m.size + 1] == [a[m.a + m.size]];
      assert b[m.b + m.size..m.b + m.size + 1] == [b[m.b + m.size]];
      CommonBlocksJoin(a, b, m, Match(m.a + m.size, m.b + m.size, 1));
    }
  }

  // ---------------------------------------------------------------------------
  // get_matching_blocks
  // ---------------------------------------------------------------------------

  /**
   * `bs` are non-empty common blocks in order: each starts at or after the
   * end of the previous one in both sequences (the first at or after
   * `(i, j)`), and the last ends by `(ahi, bhi)`.
   */
  predicate Chain<T(==)>(a: seq<T>, b: seq<T>, bs: seq<Match>, i: nat, j: nat, ahi: nat, bhi: nat)
    decreases |bs|
  {
    if bs == [] then i <= ahi && j <= bhi
    else
      && i <= bs[0].a && j <= bs[0].b && 0 < bs[0].size
      && IsCommonBlock(a, b, bs[0])
      && Chain(a, b, bs[1..], bs[0].a + bs[0].size, bs[0].b + bs[0].size, ahi, bhi)
  }

  lemma ChainStartEarlier<T>(a: seq<T>, b: seq<T>, bs: seq<Match>, i: nat, j: nat, i': nat, j': nat, ahi: nat, bhi: nat)
    requires Chain(a, b, bs, i, j, ahi, bhi) && i' <= i && j' <= j
    ensures Chain(a, b, bs, i', j', ahi, bhi)
  {
  }

  lemma {:induction false} ChainAppend<T>(a: seq<T>, b: seq<T>, xs: seq<Match>, ys: seq<Match>,
                                              i: nat, j: nat, mi: nat, mj: nat, ahi: nat, bhi: nat)
    requires Chain(a, b, xs, i, j, mi, mj)
    requires Chain(a, b, ys, mi, mj, ahi, bhi)
    ensures Chain(a, b, xs + ys, i, j, ahi, bhi)
    decreases |xs|
  {
    if xs == [] {
      assert xs + ys == ys;
      ChainStartEarlier(a, b, ys, mi, mj, i, j, ahi, bhi);
    } else {
      assert (xs + ys)[0] == xs[0];
      assert (xs + ys)[1..] == xs[1..] + ys;
      ChainAppend(a, b, xs[1..], ys, xs[0].a + xs[0].size, xs[0].b + xs[0].size, mi, mj, ahi, bhi);
    }
  }

  lemma {:induction false} ChainCommon<T>(a: seq<T>, b: seq<T>, bs: seq<Match>, i: nat, j: nat, ahi: nat, bhi: nat)
    requires Chain(a, b, bs, i, j, ahi, bhi)
    ensures forall k :: 0 <= k < |bs| ==>
              IsCommonBlock(a, b, bs[k]) && i <= bs[k].a && j <= bs[k].b && bs[k].a + bs[k].size <= ahi && bs[k].b + bs[k].size <= bhi
    decreases |bs|
  {
    if bs != [] {
      ChainCommon(a, b, bs[1..], bs[0].a + bs[0].size, bs[0].b + bs[0].size, ahi, bhi);
      ChainEnds(a, b, bs[1..], bs[0].a + bs[0].size, bs[0].b + bs[0].size, ahi, bhi);
      assert forall k :: 0 < k < |bs| ==> bs[k] == bs[1..][k - 1];
    }
  }

  lemma {:induction false} ChainEnds<T>(a: seq<T>, b: seq<T>, bs: seq<Match>, i: nat, j: nat, ahi: nat, bhi: nat)
    requires Chain(a, b, bs, i, j, ahi, bhi)
    ensures i <= ahi && j <= bhi
    decreases |bs|
  {
    if bs != [] {
      ChainEnds(a, b, bs[1..], bs[0].a + bs[0].size, bs[0].b + bs[0].size, ahi, bhi);
    }
  }

  /**
   * The recursive form of `get_matching_blocks` before sorting: the longest
   * match of the range, with the blocks of the part before it on the left
   * and of the part after it on the right. Recursing in order yields the
   * blocks already sorted, which is what difflib's queue followed by
   * `matching_blocks.sort()` returns.
   */
  function MatchingBlocksIn<T(==)>(a: seq<T>, b: seq<T>, alo: nat, ahi: nat, blo: nat, bhi: nat): (bs: seq<Match>)
    requires ValidRange(a, b, alo, ahi, blo, bhi)
    ensures Chain(a, b, bs, alo, blo, ahi, bhi)
    decreases ahi - alo + bhi - blo
  {
    var m := FindLongestMatch(a, b, alo, ahi, blo, bhi);
    if m.size == 0 then []
    else
      var left := if alo < m.a && blo < m.b then MatchingBlocksIn(a, b, alo, m.a, blo, m.b) else [];
      var right := if m.a + m.size < ahi && m.b + m.size < bhi
                   then MatchingBlocksIn(a, b, m.a + m.size, ahi, m.b + m.size, bhi) else [];
      assert Chain(a, b, [m] + right, m.a, m.b, ahi, bhi) by {
        assert ([m] + right)[1..] == right;
      }
      ChainAppend(a, b, left, [m] + right, alo, blo, m.a, m.b, ahi, bhi);
      left + ([m] + right)
  }

  predicate Adjacent(m1: Match, m2: Match) {
    m1.a + m1.size == m2.a && m1.b + m1.size == m2.b
  }

  /** No block ends exactly where the next one starts in both sequences. */
  predicate NonAdjacent(bs: seq<Match>) {
    forall n :: 0 < n < |bs| ==> !Adjacent(bs[n - 1], bs[n])
  }

  function SumSizes(bs: seq<Match>): nat {
    if bs == [] then 0 else bs[0].size + SumSizes(bs[1..])
  }

  /**
   * The collapsing loop of `get_matching_blocks`: `cur` is `(i1, j1, k1)`;
   * a block adjacent to it is absorbed, any other block flushes `cur` (if
   * non-empty) and becomes the new `cur`.
   */
  function MergeAdjacent(bs: seq<Match>, cur: Match): (r: seq<Match>)
    ensures SumSizes(r) == cur.size + SumSizes(bs)
    ensures cur.size > 0 ==> r != [] && r[0].a == cur.a && r[0].b == cur.b
    decreases |bs|
  {
    if bs == [] then (if cur.size > 0 then [cur] else [])
    else
      var x := bs[0];
      if Adjacent(cur, x) then MergeAdjacent(bs[1..], Match(cur.a, cur.b, cur.size + x.size))
      else
        var rest := MergeAdjacent(bs[1..], x);
        if cur.size > 0 then
          assert ([cur] + rest)[1..] == rest;
          [cur] + rest
        else rest
  }

  lemma CommonBlocksJoin<T>(a: seq<T>, b: seq<T>, m1: Match, m2: Match)
    requires IsCommonBlock(a, b, m1) && IsCommonBlock(a, b, m2) && Adjacent(m1, m2)
    ensures IsCommonBlock(a, b, Match(m1.a, m1.b, m1.size + m2.size))
  {
    var n := m1.size + m2.size;
    assert m1.a + n == m2.a + m2.size && m1.b + n == m2.b + m2.size;
    assert a[m1.a..m1.a + n] == a[m1.a..m2.a] + a[m2.a..m2.a + m2.size];
    assert b[m1.b..m1.b + n] == b[m1.b..m2.b] + b[m2.b..m2.b + m2.size];
  }

  /** A non-empty common block that does not touch the next one extends a non-adjacent chain at its front. */
  lemma ChainCons<T>(a: seq<T>, b: seq<T>, cur: Match, rest: seq<Match>, ahi: nat, bhi: nat)
    requires IsCommonBlock(a, b, cur) && cur.size > 0
    requires Chain(a, b, rest, cur.a + cur.size, cur.b + cur.size, ahi, bhi) && NonAdjacent(rest)
    requires rest != [] ==> !Adjacent(cur, rest[0])
    ensures Chain(a, b, [cur] + rest, cur.a, cur.b, ahi, bhi)
    ensures NonAdjacent([cur] + rest)
  {
    var r := [cur] + rest;
    assert r[1..] == rest;
    forall n | 0 < n < |r| ensures !Adjacent(r[n - 1], r[n]) {
      if n > 1 {
        assert r[n - 1] == rest[n - 2] && r[n] == rest[n - 1];
      }
    }
  }

  /** Merging keeps the blocks a chain of common blocks and leaves no two of them adjacent. */
  lemma {:induction false} MergeAdjacentChain<T>(a: seq<T>, b: seq<T>, bs: seq<Match>, cur: Match, ahi: nat, bhi: nat)
    requires IsCommonBlock(a, b, cur)
    requires Chain(a, b, bs, cur.a + cur.size, cur.b + cur.size, ahi, bhi)
    ensures Chain(a, b, MergeAdjacent(bs, cur), cur.a, cur.b, ahi, bhi)
    ensures NonAdjacent(MergeAdjacent(bs, cur))
    decreases |bs|
  {
    var r := MergeAdjacent(bs, cur);
    if bs == [] {
      if cur.size > 0 {
        assert r == [cur];
        assert r[1..] == [];
      }
    } else {
      var x := bs[0];
      if Adjacent(cur, x) {
        CommonBlocksJoin(a, b, cur, x);
        MergeAdjacentChain(a, b, bs[1..], Match(cur.a, cur.b, cur.size + x.size), ahi, bhi);
      } else {
        MergeAdjacentChain(a, b, bs[1..], x, ahi, bhi);
        var rest := MergeAdjacent(bs[1..], x);
        if cur.size > 0 {
          assert r == [cur] + rest;
          ChainCons(a, b, cur, rest, ahi, bhi);
        } else {
          assert r == rest;
          ChainStartEarlier(a, b, rest, x.a, x.b, cur.a, cur.b, ahi, bhi);
        }
      }
    }
  }

  /**
   * `get_matching_blocks()`: the merged blocks followed by the sentinel
   * `(len(a), len(b), 0)`.
   */
  function GetMatchingBlocks<T(==)>(a: seq<T>, b: seq<T>): (bs: seq<Match>)
    ensures bs != [] && bs[|bs| - 1] == Match(|a|, |b|, 0)
    ensures Chain(a, b, bs[..|bs| - 1], 0, 0, |a|, |b|)
    ensures NonAdjacent(bs[..|bs| - 1])
  {
    var blocks := MatchingBlocksIn(a, b, 0, |a|, 0, |b|);
    var merged := MergeAdjacent(blocks, Match(0, 0, 0));
    MergeAdjacentChain(a, b, blocks, Match(0, 0, 0), |a|, |b|);
    var bs := merged + [Match(|a|, |b|, 0)];
    assert bs[..|bs| - 1] == merged;
    bs
  }

  /** The total length matched: the sum of the sizes of all matching blocks. */
  function Matches<T(==)>(a: seq<T>, b: seq<T>): nat {
    SumSizes(GetMatchingBlocks(a, b))
  }

  lemma SumSizesAppend(xs: seq<Match>, ys: seq<Match>)
    ensures SumSizes(xs + ys) == SumSizes(xs) + SumSizes(ys)
  {
    if xs == [] {
      assert xs + ys == ys;
    } else {
      assert (xs + ys)[1..] == xs[1..] + ys;
    }
  }

  /** A chain never matches more than either range can hold. */
  lemma {:induction false} ChainSumBound<T>(a: seq<T>, b: seq<T>, bs: seq<Match>, i: nat, j: nat, ahi: nat, bhi: nat)
    requires Chain(a, b, bs, i, j, ahi, bhi)
    ensures i <= ahi && j <= bhi
    ensures SumSizes(bs) <= ahi - i && SumSizes(bs) <= bhi - j
    decreases |bs|
  {
    if bs != [] {
      ChainSumBound(a, b, bs[1..], bs[0].a + bs[0].size, bs[0].b + bs[0].size, ahi, bhi);
    }
  }

  /** A chain that matches everything left in both ranges shows the rests are equal. */
  lemma {:induction false} ChainFull<T>(a: seq<T>, b: seq<T>, bs: seq<Match>, i: nat, j: nat)
    requires Chain(a, b, bs, i, j, |a|, |b|)
    requires SumSizes(bs) == |a| - i && SumSizes(bs) == |b| - j
    ensures i <= |a| && j <= |b| && a[i..] == b[j..]
    decreases |bs|
  {
    ChainEnds(a, b, bs, i, j, |a|, |b|);
    if bs != [] {
      var m := bs[0];
      ChainSumBound(a, b, bs[1..], m.a + m.size, m.b + m.size, |a|, |b|);
      assert m.a == i && m.b == j;
      ChainFull(a, b, bs[1..], m.a + m.size, m.b + m.size);
      assert a[i..] == a[i..i + m.size] + a[i + m.size..];
      assert b[j..] == b[j..j + m.size] + b[j + m.size..];
    }
  }

  lemma MatchesBound<T>(a: seq<T>, b: seq<T>)
    ensures Matches(a, b) <= |a| && Matches(a, b) <= |b|
  {
    var bs := GetMatchingBlocks(a, b);
    var merged := bs[..|bs| - 1];
    assert bs == merged + [bs[|bs| - 1]];
    SumSizesAppend(merged, [bs[|bs| - 1]]);
    ChainSumBound(a, b, merged, 0, 0, |a|, |b|);
  }

  /** Only identical sequences have every element matched. */
  lemma MatchesFull<T>(a: seq<T>, b: seq<T>)
    requires Matches(a, b) == |a| && Matches(a, b) == |b|
    ensures a == b
  {
    var bs := GetMatchingBlocks(a, b);
    var merged := bs[..|bs| - 1];
    assert bs == merged + [bs[|bs| - 1]];
    SumSizesAppend(merged, [bs[|bs| - 1]]);
    ChainFull(a, b, merged, 0, 0);
    assert a[0..] == a && b[0..] == b;
  }

  /** A sequence matched against itself is one block covering it, then the sentinel. */
  lemma IdenticalBlocks<T>(a: seq<T>)
    ensures GetMatchingBlocks(a, a) == (if a == [] then [] else [Match(0, 0, |a|)]) + [Match(|a|, |a|, 0)]
  {
    var n := |a|;
    var m := FindLongestMatch(a, a, 0, n, 0, n);
    assert InRange(Match(0, 0, n), 0, n, 0, n) && IsCommonBlock(a, a, Match(0, 0, n));
    assert m.size == n;
    if n > 0 {
      assert MatchingBlocksIn(a, a, 0, n, 0, n) == [m];
      assert m == Match(0, 0, n);
      assert MergeAdjacent([m], Match(0, 0, 0)) == MergeAdjacent([], m);
    } else {
      assert MatchingBlocksIn(a, a, 0, n, 0, n) == [];
    }
  }

  // ---------------------------------------------------------------------------
  // get_opcodes
  // ---------------------------------------------------------------------------

  /** Blocks in order from `(i, j)`, the last one ending exactly at `(la, lb)`. */
  predicate Ordered(bs: seq<Match>, i: nat, j: nat, la: nat, lb: nat)
    decreases |bs|
  {
    if bs == [] then i == la && j == lb
    else i <= bs[0].a && j <= bs[0].b && Ordered(bs[1..], bs[0].a + bs[0].size, bs[0].b + bs[0].size, la, lb)
  }

  lemma {:induction false} ChainThenSentinel<T>(a: seq<T>, b: seq<T>, bs: seq<Match>, i: nat, j: nat)
    requires Chain(a, b, bs, i, j, |a|, |b|)
    ensures Ordered(bs + [Match(|a|, |b|, 0)], i, j, |a|, |b|)
    decreases |bs|
  {
    var s := bs + [Match(|a|, |b|, 0)];
    if bs == [] {
      assert s[1..] == [];
    } else {
      assert s[0] == bs[0] && s[1..] == bs[1..] + [Match(|a|, |b|, 0)];
      ChainThenSentinel(a, b, bs[1..], bs[0].a + bs[0].size, bs[0].b + bs[0].size);
    }
  }

  /**
   * `ops` cover both sequences without gap or overlap: the first starts at
   * `(i, j)`, each starts where the previous ended, the last ends at `(la, lb)`.
   */
  predicate Tiles(ops: seq<Opcode>, i: nat, j: nat, la: nat, lb: nat)
    decreases |ops|
  {
    if ops == [] then i == la && j == lb
    else
      && ops[0].i1 == i && ops[0].j1 == j && i <= ops[0].i2 && j <= ops[0].j2
      && Tiles(ops[1..], ops[0].i2, ops[0].j2, la, lb)
  }

  lemma {:induction false} TilesAppend(xs: seq<Opcode>, ys: seq<Opcode>, i: nat, j: nat, mi: nat, mj: nat, la: nat, lb: nat)
    requires Tiles(xs, i, j, mi, mj) && Tiles(ys, mi, mj, la, lb)
    ensures Tiles(xs + ys, i, j, la, lb)
    decreases |xs|
  {
    if xs == [] {
      assert xs + ys == ys;
    } else {
      assert (xs + ys)[0] == xs[0];
      assert (xs + ys)[1..] == xs[1..] + ys;
      TilesAppend(xs[1..], ys, xs[0].i2, xs[0].j2, mi, mj, la, lb);
    }
  }

  /**
   * An opcode's ranges lie inside the sequences and its tag fits them:
   * `equal` ranges hold equal elements, `replace` has both ranges
   * non-empty, `delete` only the left one, `insert` only the right one.
   */
  predicate WellTagged<T(==)>(a: seq<T>, b: seq<T>, op: Opcode) {
    && op.i1 <= op.i2 <= |a| && op.j1 <= op.j2 <= |b|
    && match op.tag
       case Equal => a[op.i1..op.i2] == b[op.j1..op.j2]
       case Replace => op.i1 < op.i2 && op.j1 < op.j2
       case Delete => op.i1 < op.i2 && op.j1 == op.j2
       case Insert => op.i1 == op.i2 && op.j1 < op.j2
  }

  predicate AllWellTagged<T(==)>(a: seq<T>, b: seq<T>, ops: seq<Opcode>) {
    forall k :: 0 <= k < |ops| ==> WellTagged(a, b, ops[k])
  }

  lemma AllWellTaggedAppend<T>(a: seq<T>, b: seq<T>, xs: seq<Opcode>, ys: seq<Opcode>)
    requires AllWellTagged(a, b, xs) && AllWellTagged(a, b, ys)
    ensures AllWellTagged(a, b, xs + ys)
  {
    forall k | 0 <= k < |xs + ys| ensures WellTagged(a, b, (xs + ys)[k]) {
      if k < |xs| {
        assert (xs + ys)[k] == xs[k];
      } else {
        assert (xs + ys)[k] == ys[k - |xs|];
      }
    }
  }

  /** The opcode, if any, that `get_opcodes` emits for the gap between `(i, j)` and `(ai, bj)`. */
  function GapOpcode(i: nat, ai: nat, j: nat, bj: nat): seq<Opcode>
    requires i <= ai && j <= bj
  {
    if i < ai && j < bj then [Opcode(Replace, i, ai, j, bj)]
    else if i < ai then [Opcode(Delete, i, ai, j, bj)]
    else if j < bj then [Opcode(Insert, i, ai, j, bj)]
    else []
  }

  /** The `equal` opcode of a matching block, none for an empty block. */
  function EqualOpcode(m: Match): seq<Opcode> {
    if m.size > 0 then [Opcode(Equal, m.a, m.a + m.size, m.b, m.b + m.size)] else []
  }

  /** The gap before a common block and the block itself tile their ranges with well-tagged opcodes. */
  lemma GapAndEqualOpcodes<T>(a: seq<T>, b: seq<T>, m: Match, i: nat, j: nat)
    requires i <= m.a && j <= m.b && IsCommonBlock(a, b, m)
    ensures Tiles(GapOpcode(i, m.a, j, m.b), i, j, m.a, m.b)
    ensures AllWellTagged(a, b, GapOpcode(i, m.a, j, m.b))
    ensures Tiles(EqualOpcode(m), m.a, m.b, m.a + m.size, m.b + m.size)
    ensures AllWellTagged(a, b, EqualOpcode(m))
  {
    var gap := GapOpcode(i, m.a, j, m.b);
    if gap != [] { assert gap[1..] == []; }
    var equal := EqualOpcode(m);
    if equal != [] { assert equal[1..] == []; }
  }

  /** The loop of `get_opcodes` over the matching blocks, from position `(i, j)`. */
  function OpcodesFrom<T(==)>(a: seq<T>, b: seq<T>, bs: seq<Match>, i: nat, j: nat): (ops: seq<Opcode>)
    requires Ordered(bs, i, j, |a|, |b|)
    requires forall k :: 0 <= k < |bs| ==> IsCommonBlock(a, b, bs[k])
    ensures Tiles(ops, i, j, |a|, |b|)
    ensures AllWellTagged(a, b, ops)
    decreases |bs|
  {
    if bs == [] then []
    else
      var m := bs[0];
      var gap := GapOpcode(i, m.a, j, m.b);
      var equal := EqualOpcode(m);
      assert forall k :: 0 <= k < |bs[1..]| ==> bs[1..][k] == bs[k + 1];
      var rest := OpcodesFrom(a, b, bs[1..], m.a + m.size, m.b + m.size);
      GapAndEqualOpcodes(a, b, m, i, j);
      TilesAppend(equal, rest, m.a, m.b, m.a + m.size, m.b + m.size, |a|, |b|);
      TilesAppend(gap, equal + rest, i, j, m.a, m.b, |a|, |b|);
      AllWellTaggedAppend(a, b, equal, rest);
      AllWellTaggedAppend(a, b, gap, equal + rest);
      gap + (equal + rest)
  }

  /** `get_opcodes()`. */
  function GetOpcodes<T(==)>(a: seq<T>, b: seq<T>): (ops: seq<Opcode>)
    ensures Tiles(ops, 0, 0, |a|, |b|)
    ensures AllWellTagged(a, b, ops)
  {
    var bs := GetMatchingBlocks(a, b);
    var merged := bs[..|bs| - 1];
    assert bs == merged + [Match(|a|, |b|, 0)];
    ChainThenSentinel(a, b, merged, 0, 0);
    ChainCommon(a, b, merged, 0, 0, |a|, |b|);
    assert forall k :: 0 <= k < |merged| ==> bs[k] == merged[k];
    OpcodesFrom(a, b, bs, 0, 0)
  }

  /** The left ranges of `ops`, concatenated. */
  function LeftSlices<T>(a: seq<T>, ops: seq<Opcode>): seq<T>
    requires forall k :: 0 <= k < |ops| ==> ops[k].i1 <= ops[k].i2 <= |a|
  {
    if ops == [] then [] else a[ops[0].i1..ops[0].i2] + LeftSlices(a, ops[1..])
  }

  /** The right ranges of `ops`, concatenated. */
  function RightSlices<T>(b: seq<T>, ops: seq<Opcode>): seq<T>
    requires forall k :: 0 <= k < |ops| ==> ops[k].j1 <= ops[k].j2 <= |b|
  {
    if ops == [] then [] else b[ops[0].j1..ops[0].j2] + RightSlices(b, ops[1..])
  }

  /** Tiling opcodes reconstruct both sequences from their ranges. */
  lemma {:induction false} Reconstruct<T>(a: seq<T>, b: seq<T>, ops: seq<Opcode>, i: nat, j: nat)
    requires i <= |a| && j <= |b|
    requires Tiles(ops, i, j, |a|, |b|)
    requires AllWellTagged(a, b, ops)
    ensures LeftSlices(a, ops) == a[i..] && RightSlices(b, ops) == b[j..]
    decreases |ops|
  {
    if ops != [] {
      var op := ops[0];
      assert WellTagged(a, b, op);
      assert forall k :: 0 <= k < |ops[1..]| ==> ops[1..][k] == ops[k + 1];
      Reconstruct(a, b, ops[1..], op.i2, op.j2);
      assert a[i..] == a[i..op.i2] + a[op.i2..];
      assert b[j..] == b[j..op.j2] + b[op.j2..];
    }
  }

  /** When every opcode is `equal`, the left and right ranges hold the same elements. */
  lemma {:induction false} AllEqualSlices<T>(a: seq<T>, b: seq<T>, ops: seq<Opcode>)
    requires AllWellTagged(a, b, ops)
    requires forall k :: 0 <= k < |ops| ==> ops[k].tag == Equal
    ensures LeftSlices(a, ops) == RightSlices(b, ops)
    decreases |ops|
  {
    if ops != [] {
      assert WellTagged(a, b, ops[0]);
      assert forall k :: 0 <= k < |ops[1..]| ==> ops[1..][k] == ops[k + 1];
      AllEqualSlices(a, b, ops[1..]);
    }
  }

  /** A sequence compared with itself yields one `equal` opcode covering it, or none when it is empty. */
  lemma IdenticalOpcodes<T>(a: seq<T>)
    ensures GetOpcodes(a, a) == if a == [] then [] else [Opcode(Equal, 0, |a|, 0, |a|)]
  {
    IdenticalBlocks(a);
    var bs := GetMatchingBlocks(a, a);
    var n := |a|;
    if a == [] {
      assert bs == [Match(0, 0, 0)];
      assert bs[1..] == [];
      assert OpcodesFrom(a, a, bs, 0, 0) == [] + ([] + OpcodesFrom(a, a, [], 0, 0));
    } else {
      assert bs == [Match(0, 0, n), Match(n, n, 0)];
      var tail := bs[1..];
      assert tail == [Match(n, n, 0)];
      assert tail[1..] == [];
      assert OpcodesFrom(a, a, tail, n, n) == [] + ([] + OpcodesFrom(a, a, [], n, n));
      assert OpcodesFrom(a, a, bs, 0, 0) == [] + ([Opcode(Equal, 0, n, 0, n)] + OpcodesFrom(a, a, tail, n, n));
    }
  }

  /** Every opcode of `get_opcodes()` is `equal` exactly when the sequences are equal. */
  lemma OpcodesAllEqualIff<T>(a: seq<T>, b: seq<T>)
    ensures (forall k :: 0 <= k < |GetOpcodes(a, b)| ==> GetOpcodes(a, b)[k].tag == Equal) <==> a == b
  {
    var ops := GetOpcodes(a, b);
    if forall k :: 0 <= k < |ops| ==> ops[k].tag == Equal {
      AllEqualOpcodesSame(a, b, ops);
    }
    if a == b {
      IdenticalOpcodes(a);
      assert ops == if a == [] then [] else [Opcode(Equal, 0, |a|, 0, |a|)];
    }
  }

  /** Opcodes that tile both sequences and are all `equal` leave the sequences equal. */
  lemma AllEqualOpcodesSame<T>(a: seq<T>, b: seq<T>, ops: seq<Opcode>)
    requires Tiles(ops, 0, 0, |a|, |b|) && AllWellTagged(a, b, ops)
    requires forall k :: 0 <= k < |ops| ==> ops[k].tag == Equal
    ensures a == b
  {
    Reconstruct(a, b, ops, 0, 0);
    AllEqualSlices(a, b, ops);
    assert a[0..] == a && b[0..] == b;
  }

  // ---------------------------------------------------------------------------
  // ratio
  // ---------------------------------------------------------------------------

  lemma FractionBounds(x: real, y: real)
    requires 0.0 <= x <= y && 0.0 < y
    ensures 0.0 <= x / y <= 1.0
    ensures x / y == 1.0 <==> x == y
  {
  }

  /** `ratio()`: `2.0 * M / T` with `M` the matched length and `T` the total length; 1.0 when both are empty. */
  function Ratio<T(==)>(a: seq<T>, b: seq<T>): (r: real)
    ensures 0.0 <= r <= 1.0
  {
    var length := |a| + |b|;
    if length > 0 then
      MatchesBound(a, b);
      FractionBounds(2.0 * Matches(a, b) as real, length as real);
      2.0 * Matches(a, b) as real / length as real
    else 1.0
  }

  /** The ratio is 1.0 exactly for equal sequences. */
  lemma RatioOneIff<T>(a: seq<T>, b: seq<T>)
    ensures Ratio(a, b) == 1.0 <==> a == b
  {
    var length := |a| + |b|;
    if length > 0 {
      var m := Matches(a, b);
      MatchesBound(a, b);
      FractionBounds(2.0 * m as real, length as real);
      assert Ratio(a, b) == 2.0 * m as real / length as real;
      if a == b {
        IdenticalBlocks(a);
        assert GetMatchingBlocks(a, b)[1..] == [Match(|a|, |a|, 0)];
        assert m == |a|;
      }
      if Ratio(a, b) == 1.0 {
        assert m == |a| && m == |b|;
        MatchesFull(a, b);
      }
    }
  }
}
