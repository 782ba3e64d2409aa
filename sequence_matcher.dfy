/** The part of Python's `difflib.SequenceMatcher` that the pronunciation
    score reads: `ratio()`, computed from the matching blocks that
    `get_matching_blocks()` finds by the Ratcliff/Obershelp recursion.  The
    matcher is modelled with no junk: `isjunk` is None and the "popular
    element" heuristic is off. */
module SequenceMatcher {
  import opened RealArith

  /** A triple `(i, j, size)` as difflib reports it: `a[i:i+size]` and
      `b[j:j+size]` are meant to be equal. */
  datatype Block = Block(i: nat, j: nat, size: nat)

  /** `a[i:i+size] == b[j:j+size]`, both slices inside their strings
      (CommonIsEqualSlices); stated through the longest common prefix at
      `(i, j)` so that the solver does not unfold slice equalities. */
  predicate IsCommon(a: string, b: string, m: Block) {
    m.i <= |a| && m.j <= |b| && m.size <= PrefixAt(a, b, m.i, m.j)
  }

  /** `(i1, j1)` is lexicographically no later than `(i2, j2)`. */
  predicate LexLe(i1: nat, j1: nat, i2: nat, j2: nat) {
    i1 < i2 || (i1 == i2 && j1 <= j2)
  }

  predicate LexLt(i1: nat, j1: nat, i2: nat, j2: nat) {
    i1 < i2 || (i1 == i2 && j1 < j2)
  }

  /** A common block of size `k` at `(i, j)` does not beat `m`: it is shorter,
      or as long and not earlier. */
  predicate Dominates(m: Block, i: nat, j: nat, k: nat) {
    k < m.size || (k == m.size && LexLe(m.i, m.j, i, j))
  }

  /** What `find_longest_match` returns when nothing is junk: a longest
      common block, the one with the smallest `i` among those, then the
      smallest `j`. */
  ghost predicate IsLongest(a: string, b: string, m: Block) {
    IsCommon(a, b, m)
    && forall i: nat, j: nat, k: nat :: IsCommon(a, b, Block(i, j, k)) ==> Dominates(m, i, j, k)
  }

  /** The longest match is determined by the two strings. */
  lemma {:induction false} LongestIsUnique(a: string, b: string, m1: Block, m2: Block)
    requires IsLongest(a, b, m1) && IsLongest(a, b, m2)
    ensures m1 == m2
  {
    assert IsCommon(a, b, Block(m2.i, m2.j, m2.size));
    assert IsCommon(a, b, Block(m1.i, m1.j, m1.size));
  }

  /** Length of the longest common prefix of `a` and `b`
      (CommonPrefixIsLongest). */
  function CommonPrefixLength(a: string, b: string): (n: nat)
    ensures n <= |a| && n <= |b|
  {
    if a == [] || b == [] || a[0] != b[0] then 0
    else CommonPrefixLength(a[1..], b[1..]) + 1
  }

  /** The first `n` characters agree and the next ones (if any) differ. */
  lemma {:induction false} CommonPrefixIsLongest(a: string, b: string)
    ensures var n := CommonPrefixLength(a, b);
      a[..n] == b[..n] && (n < |a| && n < |b| ==> a[n] != b[n])
  {
    if a != [] && b != [] && a[0] == b[0] {
      CommonPrefixIsLongest(a[1..], b[1..]);
      var n := CommonPrefixLength(a[1..], b[1..]);
      assert a[..n + 1] == [a[0]] + a[1..][..n];
      assert b[..n + 1] == [b[0]] + b[1..][..n];
    }
  }

  /** Length of the longest common block starting at `(i, j)`. */
  function PrefixAt(a: string, b: string, i: nat, j: nat): nat
    requires i <= |a| && j <= |b|
  {
    CommonPrefixLength(a[i..], b[j..])
  }

  /** A common block is a pair of equal slices. */
  lemma {:induction false} CommonIsEqualSlices(a: string, b: string, m: Block)
    ensures IsCommon(a, b, m) <==>
      m.i + m.size <= |a| && m.j + m.size <= |b| && a[m.i..m.i + m.size] == b[m.j..m.j + m.size]
  {
    if m.i <= |a| && m.j <= |b| {
      var x, y := a[m.i..], b[m.j..];
      var n := CommonPrefixLength(x, y);
      var k := m.size;
      CommonPrefixIsLongest(x, y);
      if k <= n {
        assert a[m.i..m.i + k] == x[..k] == x[..n][..k];
        assert b[m.j..m.j + k] == y[..k] == y[..n][..k];
      } else if m.i + k <= |a| && m.j + k <= |b| {
        assert a[m.i..m.i + k][n] == x[n];
        assert b[m.j..m.j + k][n] == y[n];
      }
    }
  }

  /** The scan state after visiting, row by row, every start position
      before `(i, j)`: `best` is the longest, earliest block among the start
      positions visited so far. */
  ghost predicate BestSoFar(a: string, b: string, best: Block, i: nat, j: nat) {
    IsCommon(a, b, best)
    && (best.size == 0 ==> best == Block(0, 0, 0))
    && LexLe(best.i, best.j, i, j)
    && forall i': nat, j': nat :: i' < |a| && j' < |b| && LexLt(i', j', i, j) ==> Dominates(best, i', j', PrefixAt(a, b, i', j'))
  }

  /** Visits the start positions `(i, j)`, `(i, j + 1)`, ... of row `i`,
      keeping a block only when it is strictly longer than the best one. */
  function ScanRow(a: string, b: string, i: nat, j: nat, best: Block): (r: Block)
    requires i < |a| && j <= |b| && IsCommon(a, b, best)
    ensures IsCommon(a, b, r)
    decreases |b| - j
  {
    if j == |b| then best
    else
      var k := PrefixAt(a, b, i, j);
      ScanRow(a, b, i, j + 1, if k > best.size then Block(i, j, k) else best)
  }

  /** Visits the rows `i`, `i + 1`, ... of start positions. */
  function Scan(a: string, b: string, i: nat, best: Block): (r: Block)
    requires i <= |a| && IsCommon(a, b, best)
    ensures IsCommon(a, b, r)
    decreases |a| - i
  {
    if i == |a| then best else Scan(a, b, i + 1, ScanRow(a, b, i, 0, best))
  }

  /** `find_longest_match(0, len(a), 0, len(b))` with no junk. */
  function FindLongestMatch(a: string, b: string): (m: Block)
    ensures IsCommon(a, b, m)
  {
    Scan(a, b, 0, Block(0, 0, 0))
  }

  /** Scanning a row keeps the scan state. */
  lemma {:induction false} ScanRowKeepsBest(a: string, b: string, i: nat, j: nat, best: Block)
    requires i < |a| && j <= |b| && BestSoFar(a, b, best, i, j)
    ensures BestSoFar(a, b, ScanRow(a, b, i, j, best), i + 1, 0)
    decreases |b| - j
  {
    if j < |b| {
      var k := PrefixAt(a, b, i, j);
      ScanRowKeepsBest(a, b, i, j + 1, if k > best.size then Block(i, j, k) else best);
    }
  }

  /** Scanning the remaining rows keeps the scan state. */
  lemma {:induction false} ScanKeepsBest(a: string, b: string, i: nat, best: Block)
    requires i <= |a| && BestSoFar(a, b, best, i, 0)
    ensures BestSoFar(a, b, Scan(a, b, i, best), |a|, 0)
    decreases |a| - i
  {
    if i < |a| {
      ScanRowKeepsBest(a, b, i, 0, best);
      ScanKeepsBest(a, b, i + 1, ScanRow(a, b, i, 0, best));
    }
  }

  /** `find_longest_match` returns the longest, earliest common block. */
  lemma {:induction false} LongestMatchIsLongest(a: string, b: string)
    ensures IsLongest(a, b, FindLongestMatch(a, b))
  {
    ScanKeepsBest(a, b, 0, Block(0, 0, 0));
    ScanIsLongest(a, b, Scan(a, b, 0, Block(0, 0, 0)));
  }

  /** A block that survived the whole scan is the longest match. */
  lemma {:induction false} ScanIsLongest(a: string, b: string, m: Block)
    requires BestSoFar(a, b, m, |a|, 0)
    ensures IsLongest(a, b, m)
  {
    forall i: nat, j: nat, k: nat | IsCommon(a, b, Block(i, j, k))
      ensures Dominates(m, i, j, k)
    {
      if k > 0 {
        assert Dominates(m, i, j, PrefixAt(a, b, i, j));
      }
    }
  }

  function ShiftBlock(m: Block, di: nat, dj: nat): Block {
    Block(m.i + di, m.j + dj, m.size)
  }

  /** Re-bases blocks found in `a[di:]`, `b[dj:]` onto `a`, `b`. */
  function Shift(bs: seq<Block>, di: nat, dj: nat): (r: seq<Block>)
    ensures |r| == |bs|
  {
    seq(|bs|, k requires 0 <= k < |bs| => ShiftBlock(bs[k], di, dj))
  }

  /** Sum of the block sizes: the `M` of `ratio()`. */
  function Total(bs: seq<Block>): nat {
    if bs == [] then 0 else bs[0].size + Total(bs[1..])
  }

  lemma {:induction false} TotalConcat(x: seq<Block>, y: seq<Block>)
    ensures Total(x + y) == Total(x) + Total(y)
  {
    if x != [] {
      assert (x + y)[1..] == x[1..] + y;
      TotalConcat(x[1..], y);
    } else {
      assert x + y == y;
    }
  }

  lemma {:induction false} TotalShift(bs: seq<Block>, di: nat, dj: nat)
    ensures Total(Shift(bs, di, dj)) == Total(bs)
  {
    if bs != [] {
      assert Shift(bs, di, dj)[1..] == Shift(bs[1..], di, dj);
      TotalShift(bs[1..], di, dj);
    }
  }

  /** `m` ends, in both strings, no later than `n` starts. */
  predicate Before(m: Block, n: Block) {
    m.i + m.size <= n.i && m.j + m.size <= n.j
  }

  /** Blocks in increasing order and not overlapping, as difflib lists them. */
  predicate Ascending(bs: seq<Block>) {
    forall k, l :: 0 <= k < l < |bs| ==> Before(bs[k], bs[l])
  }

  /** Every block of `x` comes before every block of `y`. */
  predicate AllBefore(x: seq<Block>, y: seq<Block>) {
    forall k, l :: 0 <= k < |x| && 0 <= l < |y| ==> Before(x[k], y[l])
  }

  /** Every block is a non-empty common block. */
  predicate AllCommon(a: string, b: string, bs: seq<Block>) {
    forall k :: 0 <= k < |bs| ==> bs[k].size > 0 && IsCommon(a, b, bs[k])
  }

  lemma {:induction false} AscendingConcat(x: seq<Block>, y: seq<Block>)
    requires Ascending(x) && Ascending(y) && AllBefore(x, y)
    ensures Ascending(x + y)
  {
    forall k, l | 0 <= k < l < |x + y|
      ensures Before((x + y)[k], (x + y)[l])
    {
      if l < |x| {
        assert Before(x[k], x[l]);
      } else if k >= |x| {
        assert Before(y[k - |x|], y[l - |x|]);
      } else {
        assert Before(x[k], y[l - |x|]);
      }
    }
  }

  /** A block common to two prefixes is common to the whole strings. */
  lemma {:induction false} CommonInPrefixes(a: string, b: string, p: nat, q: nat, m: Block)
    requires p <= |a| && q <= |b|
    requires IsCommon(a[..p], b[..q], m)
    ensures IsCommon(a, b, m) && m.i + m.size <= p && m.j + m.size <= q
  {
    CommonIsEqualSlices(a[..p], b[..q], m);
    assert a[..p][m.i..m.i + m.size] == a[m.i..m.i + m.size];
    assert b[..q][m.j..m.j + m.size] == b[m.j..m.j + m.size];
    CommonIsEqualSlices(a, b, m);
  }

  /** A block common to two suffixes is, moved back, common to the whole
      strings. */
  lemma {:induction false} CommonInSuffixes(a: string, b: string, p: nat, q: nat, m: Block)
    requires p <= |a| && q <= |b|
    requires IsCommon(a[p..], b[q..], m)
    ensures IsCommon(a, b, ShiftBlock(m, p, q))
  {
    CommonIsEqualSlices(a[p..], b[q..], m);
    assert a[p..][m.i..m.i + m.size] == a[p + m.i..p + m.i + m.size];
    assert b[q..][m.j..m.j + m.size] == b[q + m.j..q + m.j + m.size];
    CommonIsEqualSlices(a, b, ShiftBlock(m, p, q));
  }

  /** `get_matching_blocks()` before difflib merges adjacent blocks and
      appends its `(len(a), len(b), 0)` sentinel: take the longest match,
      then recurse on what lies to its left and to its right.  The blocks
      are non-empty common blocks in increasing, non-overlapping order;
      they cover no more characters than either string holds, and cover
      both strings entirely only when the strings are equal. */
  function MatchingBlocks(a: string, b: string): (bs: seq<Block>)
    ensures AllCommon(a, b, bs) && Ascending(bs)
    ensures Total(bs) <= |a| && Total(bs) <= |b|
    ensures Total(bs) == |a| && Total(bs) == |b| ==> a == b
    decreases |a| + |b|
  {
    var m := FindLongestMatch(a, b);
    if m.size == 0 then []
    else
      var left := MatchingBlocks(a[..m.i], b[..m.j]);
      var right := MatchingBlocks(a[m.i + m.size..], b[m.j + m.size..]);
      CombineCommon(a, b, m, left, right);
      CombineTotal(a, b, m, left, right);
      left + [m] + Shift(right, m.i + m.size, m.j + m.size)
  }

  /** The blocks left of a longest match `m`, then `m`, then the blocks
      right of it moved onto the whole strings, are common and ascending. */
  lemma {:induction false} CombineCommon(a: string, b: string, m: Block, left: seq<Block>, right: seq<Block>)
    requires IsCommon(a, b, m) && m.size > 0
    requires AllCommon(a[..m.i], b[..m.j], left) && Ascending(left)
    requires AllCommon(a[m.i + m.size..], b[m.j + m.size..], right) && Ascending(right)
    ensures var bs := left + [m] + Shift(right, m.i + m.size, m.j + m.size);
      AllCommon(a, b, bs) && Ascending(bs)
  {
    CommonIsEqualSlices(a, b, m);
    LeftBlocks(a, b, m, left);
    MovedBlocks(a, b, m, right);
    var moved := Shift(right, m.i + m.size, m.j + m.size);
    AscendingConcat(left, [m]);
    assert AllBefore(left + [m], moved) by {
      forall k, l | 0 <= k < |left| + 1 && 0 <= l < |moved|
        ensures Before((left + [m])[k], moved[l])
      {
        assert Before(m, moved[l]);
        if k < |left| {
          assert Before(left[k], m);
        }
      }
    }
    AscendingConcat(left + [m], moved);
    AllCommonConcat(a, b, left, [m]);
    AllCommonConcat(a, b, left + [m], moved);
  }

  /** The same three parts cover no more than either string holds, and
      cover both entirely only when the strings are equal. */
  lemma {:induction false} CombineTotal(a: string, b: string, m: Block, left: seq<Block>, right: seq<Block>)
    requires IsCommon(a, b, m) && m.size > 0
    requires Total(left) <= m.i && Total(left) <= m.j
    requires Total(left) == m.i && Total(left) == m.j ==> a[..m.i] == b[..m.j]
    requires Total(right) <= |a| - (m.i + m.size) && Total(right) <= |b| - (m.j + m.size)
    requires Total(right) == |a| - (m.i + m.size) && Total(right) == |b| - (m.j + m.size)
      ==> a[m.i + m.size..] == b[m.j + m.size..]
    ensures var bs := left + [m] + Shift(right, m.i + m.size, m.j + m.size);
      Total(bs) <= |a| && Total(bs) <= |b| && (Total(bs) == |a| && Total(bs) == |b| ==> a == b)
  {
    var p, q := m.i + m.size, m.j + m.size;
    CommonIsEqualSlices(a, b, m);
    TotalConcat(left, [m]);
    TotalConcat(left + [m], Shift(right, p, q));
    TotalShift(right, p, q);
    assert Total([m]) == m.size;
    JoinAroundBlock(a, b, m);
  }

  /** `M` in `ratio()`: the number of characters the matching blocks cover. */
  function Matches(a: string, b: string): (n: nat)
    ensures n <= |a| && n <= |b|
    ensures n == |a| && n == |b| ==> a == b
  {
    Total(MatchingBlocks(a, b))
  }

  /** Strings equal to the left of a common block, on it and to its right
      are equal. */
  lemma JoinAroundBlock(a: string, b: string, m: Block)
    requires m.i + m.size <= |a| && m.j + m.size <= |b|
    ensures (a[..m.i] == b[..m.j] && a[m.i..m.i + m.size] == b[m.j..m.j + m.size]
      && a[m.i + m.size..] == b[m.j + m.size..]) ==> a == b
  {
    assert a == a[..m.i] + a[m.i..m.i + m.size] + a[m.i + m.size..];
    assert b == b[..m.j] + b[m.j..m.j + m.size] + b[m.j + m.size..];
  }

  lemma {:induction false} AllCommonConcat(a: string, b: string, x: seq<Block>, y: seq<Block>)
    requires AllCommon(a, b, x) && AllCommon(a, b, y)
    ensures AllCommon(a, b, x + y)
  {
    forall k | 0 <= k < |x + y|
      ensures (x + y)[k].size > 0 && IsCommon(a, b, (x + y)[k])
    {
      if k >= |x| {
        assert (x + y)[k] == y[k - |x|];
      }
    }
  }

  /** The blocks found left of the longest match `m` lie in the whole
      strings and end before `m` starts. */
  lemma {:induction false} LeftBlocks(a: string, b: string, m: Block, left: seq<Block>)
    requires m.i <= |a| && m.j <= |b|
    requires AllCommon(a[..m.i], b[..m.j], left)
    ensures AllCommon(a, b, left) && AllBefore(left, [m])
  {
    forall k | 0 <= k < |left|
      ensures IsCommon(a, b, left[k]) && Before(left[k], m)
    {
      CommonInPrefixes(a, b, m.i, m.j, left[k]);
    }
  }

  /** The blocks found right of the longest match, moved back onto the
      whole strings, stay common and ascending and all come after `m`. */
  lemma {:induction false} MovedBlocks(a: string, b: string, m: Block, right: seq<Block>)
    requires m.i + m.size <= |a| && m.j + m.size <= |b|
    requires AllCommon(a[m.i + m.size..], b[m.j + m.size..], right) && Ascending(right)
    ensures var moved := Shift(right, m.i + m.size, m.j + m.size);
      AllCommon(a, b, moved) && Ascending(moved) && AllBefore([m], moved)
  {
    var p, q := m.i + m.size, m.j + m.size;
    var moved := Shift(right, p, q);
    forall k | 0 <= k < |moved|
      ensures moved[k].size > 0 && IsCommon(a, b, moved[k]) && Before(m, moved[k])
    {
      CommonInSuffixes(a, b, p, q, right[k]);
    }
    forall k, l | 0 <= k < l < |moved|
      ensures Before(moved[k], moved[l])
    {
      assert Before(right[k], right[l]);
    }
  }

  /** `SequenceMatcher(None, a, b).ratio()`: `2*M/T` with `M` the total size
      of the matching blocks and `T = len(a) + len(b)`; 1 when both strings
      are empty. */
  function Ratio(a: string, b: string): (r: real)
    ensures 0.0 <= r <= 1.0
  {
    var t := |a| + |b|;
    if t == 0 then 1.0
    else
      var m := Matches(a, b);
      QuotientAtMostOne(2.0 * m as real, t as real);
      2.0 * m as real / t as real
  }

  /** The ratio read as "every character matched". */
  lemma {:induction false} RatioIsOneWhenAllMatched(a: string, b: string)
    ensures Ratio(a, b) == 1.0 <==> 2 * Matches(a, b) == |a| + |b|
  {
    var t := |a| + |b|;
    if t > 0 {
      QuotientIsOne(2.0 * Matches(a, b) as real, t as real);
    }
  }

  /** A string matches itself in full. */
  lemma {:induction false} MatchesSelf(a: string)
    ensures Matches(a, a) == |a|
  {
    if a != [] {
      var whole := Block(0, 0, |a|);
      assert IsLongest(a, a, whole) by {
        assert a[0..|a|] == a;
        CommonIsEqualSlices(a, a, whole);
      }
      LongestMatchIsLongest(a, a);
      LongestIsUnique(a, a, whole, FindLongestMatch(a, a));
      assert a[..0] == [] && a[|a|..] == [];
    }
  }

  /** The ratio is 1 exactly when the two strings are equal. */
  lemma {:induction false} RatioOneIffEqual(a: string, b: string)
    ensures Ratio(a, b) == 1.0 <==> a == b
  {
    RatioIsOneWhenAllMatched(a, b);
    if a == b {
      MatchesSelf(a);
    }
  }

  /** Two strings share some character. */
  predicate ShareChar(a: string, b: string) {
    exists i, j :: 0 <= i < |a| && 0 <= j < |b| && a[i] == b[j]
  }

  /** Nothing is matched exactly when the strings have no character in
      common. */
  lemma {:induction false} NoMatchIffNoSharedChar(a: string, b: string)
    ensures Matches(a, b) == 0 <==> !ShareChar(a, b)
  {
    var m := FindLongestMatch(a, b);
    if ShareChar(a, b) {
      var i, j :| 0 <= i < |a| && 0 <= j < |b| && a[i] == b[j];
      assert IsCommon(a, b, Block(i, j, 1)) by {
        assert a[i..i + 1] == [a[i]] && b[j..j + 1] == [b[j]];
        CommonIsEqualSlices(a, b, Block(i, j, 1));
      }
      LongestMatchIsLongest(a, b);
    } else if m.size > 0 {
      CommonIsEqualSlices(a, b, m);
      assert false;
    }
  }

  /** The ratio is 0 exactly when some string is non-empty and the two share
      no character. */
  lemma {:induction false} RatioZeroIffDisjoint(a: string, b: string)
    ensures Ratio(a, b) == 0.0 <==> |a| + |b| > 0 && !ShareChar(a, b)
  {
    NoMatchIffNoSharedChar(a, b);
    var t := |a| + |b|;
    if t > 0 {
      QuotientIsZero(2.0 * Matches(a, b) as real, t as real);
    }
  }
}
