/**
 Common blocks of two key sequences: the longest one in a window, and a chain of blocks
 that never go backwards in either sequence.
 */
module Matching {
  import opened Wrappers

  /** A row and its position in the collection it comes from. */
  datatype Row = Row(key: int, index: nat)

  /** A block of equal keys; the weight that breaks ties between blocks is kept beside it. */
  datatype Match = Match(i: nat, j: nat, size: nat)

  datatype Length = Length(j: nat, len: nat)

  function Keys(rows: seq<Row>): (keys: seq<int>)
    ensures |keys| == |rows|
  {
    seq(|rows|, k requires 0 <= k < |rows| => rows[k].key)
  }

  lemma KeysAt(rows: seq<Row>, k: nat)
    requires k < |rows|
    ensures |Keys(rows)| == |rows| && Keys(rows)[k] == rows[k].key
  {
  }

  /** The window `[begin1, end1)` of the first sequence against `[begin2, end2)` of the second. */
  datatype Window = Window(begin1: nat, end1: nat, begin2: nat, end2: nat) {
    predicate Fits(a: seq<int>, b: seq<int>) {
      begin1 <= end1 <= |a| && begin2 <= end2 <= |b|
    }

    predicate Holds(m: Match) {
      begin1 <= m.i && m.i + m.size <= end1 && begin2 <= m.j && m.j + m.size <= end2
    }
  }

  ghost predicate Common(a: seq<int>, b: seq<int>, i: nat, j: nat, size: nat)
    requires i + size <= |a| && j + size <= |b|
  {
    a[i..i + size] == b[j..j + size]
  }

  /** The length of the longest block of the window that ends at `a[i]` and `b[j]`. */
  ghost function BlockEnding(a: seq<int>, b: seq<int>, w: Window, i: nat, j: nat): (len: nat)
    requires w.Fits(a, b) && w.begin1 <= i < w.end1 && w.begin2 <= j < w.end2
    ensures w.begin1 + len <= i + 1 && w.begin2 + len <= j + 1
    decreases i
  {
    if a[i] != b[j] then 0
    else if i == w.begin1 || j == w.begin2 then 1
    else BlockEnding(a, b, w, i - 1, j - 1) + 1
  }

  lemma {:induction false} BlockEndingCommon(a: seq<int>, b: seq<int>, w: Window, i: nat, j: nat)
    requires w.Fits(a, b) && w.begin1 <= i < w.end1 && w.begin2 <= j < w.end2
    ensures var len := BlockEnding(a, b, w, i, j); Common(a, b, i + 1 - len, j + 1 - len, len)
    decreases i
  {
    hide Common;
    if a[i] != b[j] {
      CommonEmpty(a, b, i + 1, j + 1);
    } else if i > w.begin1 && j > w.begin2 {
      var len := BlockEnding(a, b, w, i - 1, j - 1);
      BlockEndingCommon(a, b, w, i - 1, j - 1);
      CommonExtends(a, b, i - len, j - len, len);
    } else {
      CommonEmpty(a, b, i, j);
      CommonExtends(a, b, i, j, 0);
    }
  }

  lemma CommonEmpty(a: seq<int>, b: seq<int>, i: nat, j: nat)
    requires i <= |a| && j <= |b|
    ensures Common(a, b, i, j, 0)
  {
  }

  lemma CommonExtends(a: seq<int>, b: seq<int>, i: nat, j: nat, size: nat)
    requires i + size < |a| && j + size < |b| && Common(a, b, i, j, size) && a[i + size] == b[j + size]
    ensures Common(a, b, i, j, size + 1)
  {
    assert a[i..i + size + 1] == a[i..i + size] + [a[i + size]];
    assert b[j..j + size + 1] == b[j..j + size] + [b[j + size]];
  }

  lemma CommonShrinks(a: seq<int>, b: seq<int>, i: nat, j: nat, size: nat)
    requires i + size < |a| && j + size < |b| && Common(a, b, i, j, size + 1)
    ensures Common(a, b, i, j, size) && a[i + size] == b[j + size]
  {
    SliceEnds(a, i, size);
    SliceEnds(b, j, size);
  }

  lemma SliceEnds(s: seq<int>, i: nat, size: nat)
    requires i + size < |s|
    ensures s[i..i + size] == s[i..i + (size + 1)][..size] && s[i + size] == s[i..i + (size + 1)][size]
  {
  }

  lemma {:induction false} BlockEndingIsLongest(a: seq<int>, b: seq<int>, w: Window, m: Match)
    requires w.Fits(a, b) && w.Holds(m) && m.size > 0 && Common(a, b, m.i, m.j, m.size)
    ensures BlockEnding(a, b, w, m.i + m.size - 1, m.j + m.size - 1) >= m.size
    decreases m.size
  {
    hide Common;
    CommonShrinks(a, b, m.i, m.j, m.size - 1);
    if m.size > 1 {
      BlockEndingIsLongest(a, b, w, m.(size := m.size - 1));
    }
  }

  /** One entry of a row of the search: the length of the block ending at `a[i]` and `b[p.j]`. */
  ghost predicate IsEntry(a: seq<int>, b: seq<int>, w: Window, i: nat, p: Length)
    requires w.Fits(a, b) && w.begin1 <= i < w.end1
  {
    w.begin2 <= p.j < w.end2 && a[i] == b[p.j] && p.len == BlockEnding(a, b, w, i, p.j)
  }

  /** A whole row of the search: an entry for every `j` of the window that matches `a[i]`. */
  ghost predicate IsRow(a: seq<int>, b: seq<int>, w: Window, i: nat, row: seq<Length>)
    requires w.Fits(a, b) && w.begin1 <= i < w.end1
  {
    && (forall p <- row :: IsEntry(a, b, w, i, p))
    && forall j :: w.begin2 <= j < w.end2 && a[i] == b[j] ==> Length(j, BlockEnding(a, b, w, i, j)) in row
  }

  /** The row before `i`; before the first one there is none. */
  ghost predicate IsPreviousRow(a: seq<int>, b: seq<int>, w: Window, i: nat, row: seq<Length>)
    requires w.Fits(a, b) && w.begin1 <= i <= w.end1
  {
    if i == w.begin1 then row == [] else IsRow(a, b, w, i - 1, row)
  }

  /** No block that ends before `a[i]` is longer than `size`. */
  ghost predicate NoLongerBefore(a: seq<int>, b: seq<int>, w: Window, i: nat, size: nat)
    requires w.Fits(a, b) && i <= w.end1
  {
    forall x, j :: w.begin1 <= x < i && w.begin2 <= j < w.end2 ==> BlockEnding(a, b, w, x, j) <= size
  }

  ghost predicate IsMatch(a: seq<int>, b: seq<int>, w: Window, m: Match)
    requires w.Fits(a, b)
  {
    w.Holds(m) && Common(a, b, m.i, m.j, m.size)
  }

  /** No common block of the window is longer than all of these. */
  ghost predicate LongestAmong(a: seq<int>, b: seq<int>, w: Window, matches: seq<Match>)
    requires w.Fits(a, b)
  {
    forall m :: IsMatch(a, b, w, m) && m.size > 0 ==> exists n <- matches :: m.size <= n.size
  }

  lemma EntryIsMatch(a: seq<int>, b: seq<int>, w: Window, i: nat, j: nat)
    requires w.Fits(a, b) && w.begin1 <= i < w.end1 && w.begin2 <= j < w.end2
    ensures var len := BlockEnding(a, b, w, i, j); IsMatch(a, b, w, Match(i + 1 - len, j + 1 - len, len))
  {
    BlockEndingCommon(a, b, w, i, j);
  }

  /** One more row: blocks that end in it are bounded by its entries. */
  lemma NoLongerAfter(a: seq<int>, b: seq<int>, w: Window, i: nat, row: seq<Length>, before: nat, size: nat)
    requires w.Fits(a, b) && w.begin1 <= i < w.end1 && IsRow(a, b, w, i, row)
    requires NoLongerBefore(a, b, w, i, before) && before <= size && forall p <- row :: p.len <= size
    ensures NoLongerBefore(a, b, w, i + 1, size)
  {
    forall j | w.begin2 <= j < w.end2 ensures BlockEnding(a, b, w, i, j) <= size {
      if a[i] == b[j] {
        assert Length(j, BlockEnding(a, b, w, i, j)) in row;
      }
    }
  }

  /** What the row before says about the block that ends here. */
  lemma LengthFromPrevious(a: seq<int>, b: seq<int>, w: Window, i: nat, j: nat, prev: seq<Length>, len: nat)
    requires w.Fits(a, b) && w.begin1 <= i < w.end1 && w.begin2 <= j < w.end2 && a[i] == b[j]
    requires IsPreviousRow(a, b, w, i, prev)
    requires (exists p :: p in prev && p.j + 1 == j && len == p.len + 1)
              || (len == 1 && forall p <- prev :: p.j + 1 != j)
    ensures len == BlockEnding(a, b, w, i, j)
  {
    if i > w.begin1 && j > w.begin2 && a[i - 1] == b[j - 1] {
      assert Length(j - 1, BlockEnding(a, b, w, i - 1, j - 1)) in prev;
    }
  }

  /** A chain of blocks: each inside the window, genuinely equal, and after the one before it
      in both sequences. */
  ghost predicate Chain(a: seq<int>, b: seq<int>, w: Window, matches: seq<Match>)
    requires w.Fits(a, b)
  {
    && (forall m <- matches :: m.size > 0 && IsMatch(a, b, w, m))
    && forall x, y :: 0 <= x < y < |matches| ==>
         matches[x].i + matches[x].size <= matches[y].i && matches[x].j + matches[x].size <= matches[y].j
  }

  function LeftOf(w: Window, m: Match): Window {
    Window(w.begin1, m.i, w.begin2, m.j)
  }

  function RightOf(w: Window, m: Match): Window {
    Window(m.i + m.size, w.end1, m.j + m.size, w.end2)
  }

  lemma ChainAround(a: seq<int>, b: seq<int>, w: Window, left: seq<Match>, m: Match, right: seq<Match>)
    requires w.Fits(a, b) && IsMatch(a, b, w, m) && m.size > 0
    requires Chain(a, b, LeftOf(w, m), left) && Chain(a, b, RightOf(w, m), right)
    ensures Chain(a, b, w, left + [m] + right)
  {
    hide Common;
    var all := left + [m] + right;
    forall n | n in all ensures n.size > 0 && IsMatch(a, b, w, n) {
      assert n in left || n == m || n in right;
    }
    forall x, y | 0 <= x < y < |all|
      ensures all[x].i + all[x].size <= all[y].i && all[x].j + all[x].size <= all[y].j
    {
      PairAround(a, b, w, left, m, right, x, y);
    }
  }

  lemma PairAround(a: seq<int>, b: seq<int>, w: Window, left: seq<Match>, m: Match, right: seq<Match>, x: nat, y: nat)
    requires w.Fits(a, b) && IsMatch(a, b, w, m) && m.size > 0
    requires Chain(a, b, LeftOf(w, m), left) && Chain(a, b, RightOf(w, m), right) && x < y < |left| + 1 + |right|
    ensures var all := left + [m] + right;
            all[x].i + all[x].size <= all[y].i && all[x].j + all[x].size <= all[y].j
  {
    hide Common;
    var n := |left|;
    if x < n < y {
      assert left[x] in left && right[y - n - 1] in right;
    } else if x < n && y == n {
      assert left[x] in left;
    } else if x == n {
      assert right[y - n - 1] in right;
    }
  }

  // ---------------------------------------------------------------------------
  // The search around a longest block

  /** What was found to the left of a block, the block, and what was found to the right of it. */
  datatype Search = Ended | Around(left: Search, m: Match, right: Search)

  predicate GoesLeft(w: Window, m: Match) {
    m.i > w.begin1 && m.j > w.begin2
  }

  /** The ends of the block in both sequences are compared with the end of the second one. */
  predicate GoesRight(w: Window, m: Match) {
    m.i + m.size < w.end2 && m.j + m.size < w.end2
  }

  ghost predicate IsLongest(a: seq<int>, b: seq<int>, w: Window, m: Match)
    requires w.Fits(a, b)
  {
    IsMatch(a, b, w, m) && forall n :: IsMatch(a, b, w, n) ==> n.size <= m.size
  }

  /** Each block is a longest one of its window, and the search went on where it should. */
  ghost predicate IsSearch(a: seq<int>, b: seq<int>, w: Window, t: Search)
    requires w.Fits(a, b)
    decreases t
  {
    match t
    case Ended => forall m :: IsMatch(a, b, w, m) ==> m.size == 0
    case Around(left, m, right) =>
      && m.size > 0 && IsLongest(a, b, w, m)
      && (if GoesLeft(w, m) then IsSearch(a, b, LeftOf(w, m), left) else left == Ended)
      && if GoesRight(w, m) then IsSearch(a, b, RightOf(w, m), right) else right == Ended
  }

  lemma NothingCommon(a: seq<int>, b: seq<int>, w: Window, m: Match)
    requires w.Fits(a, b) && IsLongest(a, b, w, m) && m.size == 0
    ensures IsSearch(a, b, w, Ended)
  {
  }

  lemma LongestHolds(a: seq<int>, b: seq<int>, w: Window, m: Match)
    requires w.Fits(a, b) && IsLongest(a, b, w, m)
    ensures w.Holds(m)
  {
  }

  lemma SearchGoesOn(a: seq<int>, b: seq<int>, w: Window, t: Search)
    requires w.Fits(a, b) && t.Around? && t.m.size > 0 && IsLongest(a, b, w, t.m) && w.Holds(t.m)
    requires if GoesLeft(w, t.m) then IsSearch(a, b, LeftOf(w, t.m), t.left) else t.left == Ended
    requires if GoesRight(w, t.m) then IsSearch(a, b, RightOf(w, t.m), t.right) else t.right == Ended
    ensures IsSearch(a, b, w, t)
  {
    hide IsLongest;
  }

  function Found(t: Search): seq<Match> {
    match t
    case Ended => []
    case Around(left, m, right) => Found(left) + [m] + Found(right)
  }

  lemma NoChain(a: seq<int>, b: seq<int>, w: Window, t: Search)
    requires w.Fits(a, b) && (t.Around? ==> IsMatch(a, b, w, t.m))
    ensures Chain(a, b, w, []) && (t.Around? ==> Chain(a, b, LeftOf(w, t.m), []) && Chain(a, b, RightOf(w, t.m), []))
  {
  }

  lemma {:induction false} SearchIsChain(a: seq<int>, b: seq<int>, w: Window, t: Search)
    requires w.Fits(a, b) && IsSearch(a, b, w, t)
    ensures Chain(a, b, w, Found(t))
    decreases t
  {
    hide Common, Chain;
    NoChain(a, b, w, t);
    if t.Around? {
      if GoesLeft(w, t.m) {
        SearchIsChain(a, b, LeftOf(w, t.m), t.left);
      }
      if GoesRight(w, t.m) {
        SearchIsChain(a, b, RightOf(w, t.m), t.right);
      }
      ChainAround(a, b, w, Found(t.left), t.m, Found(t.right));
    }
  }

  lemma SearchHasLongest(a: seq<int>, b: seq<int>, w: Window, t: Search)
    requires w.Fits(a, b) && IsSearch(a, b, w, t)
    ensures LongestAmong(a, b, w, Found(t))
  {
    if t.Around? {
      assert t.m in Found(t);
    }
  }

  /** The second sequence sorted by key, then by position. */
  ghost predicate SortedIndex(b: seq<int>, sorted: seq<Row>) {
    && (forall r <- sorted :: r.index < |b| && b[r.index] == r.key)
    && (forall j :: 0 <= j < |b| ==> Row(b[j], j) in sorted)
    && forall x, y :: 0 <= x < y < |sorted| ==>
         sorted[x].key < sorted[y].key || (sorted[x].key == sorted[y].key && sorted[x].index < sorted[y].index)
  }

  class LongestCommonSubsequenceCalculator {
    const a: seq<Row>
    const b: seq<Row>
    ghost const keys: seq<int>
    const weight: (int, int) -> int
    var longestMatches: seq<Match>

    /** `keys` are the keys of the second sequence in its own order; `b` is sorted by key. */
    ghost predicate Valid() {
      && SortedIndex(keys, b)
      && forall r <- a :: r.key in keys
    }

    /** The chain of blocks from `start` on, and after it an empty block at the very end. */
    constructor (a: seq<Row>, b: seq<Row>, ghost keys: seq<int>, start: nat, weight: (int, int) -> int)
      requires SortedIndex(keys, b) && (forall r <- a :: r.key in keys)
      requires start <= |a| == |keys| == |b|
      ensures Valid() && this.a == a && this.keys == keys
      ensures exists t :: IsSearch(Keys(a), keys, Window(start, |a|, start, |keys|), t)
                && longestMatches == Found(t) + [Match(|a|, |b|, 0)]
    {
      this.a, this.b, this.keys, this.weight := a, b, keys, weight;
      longestMatches := [];
      new;
      ghost var t := FindLongestMatches(Window(start, |a|, start, |a|));
      longestMatches := longestMatches + [Match(|a|, |b|, 0)];
      assert longestMatches == Found(t) + [Match(|a|, |b|, 0)];
    }

    /** First entry of `b` whose key is not below `key`. */
    method LowerBound(key: int) returns (k: nat)
      requires Valid()
      ensures k <= |b|
      ensures forall x :: 0 <= x < k ==> b[x].key < key
      ensures forall x :: k <= x < |b| ==> key <= b[x].key
    {
      var lo, hi := 0, |b|;
      while lo < hi
        invariant 0 <= lo <= hi <= |b|
        invariant forall x :: 0 <= x < lo ==> b[x].key < key
        invariant forall x :: hi <= x < |b| ==> key <= b[x].key
      {
        var mid := (lo + hi) / 2;
        if b[mid].key < key {
          lo := mid + 1;
        } else {
          hi := mid;
        }
      }
      k := lo;
    }

    /** The length of the block ending at `b[j]`, given the lengths of the row before. */
    method LengthAt(prev: seq<Length>, j: nat) returns (len: nat)
      ensures (exists p :: p in prev && p.j + 1 == j && len == p.len + 1)
           || (len == 1 && forall p <- prev :: p.j + 1 != j)
    {
      for k := 0 to |prev|
        invariant forall x :: 0 <= x < k ==> prev[x].j + 1 != j
      {
        if prev[k].j + 1 == j {
          return prev[k].len + 1;
        }
      }
      return 1;
    }

    /** Search the matches of one row, keeping the best block so far.  Between blocks of the
        same length the one that weighs less is preferred. */
    method MatchRow(w: Window, i: nat, prev: seq<Length>, best: Match, modified: Option<int>)
        returns (cur: seq<Length>, best': Match, modified': Option<int>)
      requires Valid() && w.Fits(Keys(a), keys) && w.begin1 <= i < w.end1
      requires IsPreviousRow(Keys(a), keys, w, i, prev)
      requires IsMatch(Keys(a), keys, w, best) && NoLongerBefore(Keys(a), keys, w, i, best.size)
      ensures IsRow(Keys(a), keys, w, i, cur)
      ensures IsMatch(Keys(a), keys, w, best') && NoLongerBefore(Keys(a), keys, w, i + 1, best'.size)
    {
      hide BlockEnding, Common, IsRow, IsPreviousRow, Keys;
      ghost var ka := Keys(a);
      cur, best', modified' := [], best, modified;
      KeysAt(a, i);
      var ai := a[i].key;
      var k := LowerBound(ai);
      ghost var from := k;
      assert a[i] in a && ka[i] == ai;
      while k < |b| && b[k].key == ai
        invariant from <= k <= |b|
        invariant forall x :: from <= x < k ==> b[x].key == ai
        invariant forall p <- cur :: IsEntry(ka, keys, w, i, p) && p.len <= best'.size
        invariant forall x :: from <= x < k && w.begin2 <= b[x].index < w.end2 ==>
                    Length(b[x].index, BlockEnding(ka, keys, w, i, b[x].index)) in cur
        invariant IsMatch(ka, keys, w, best') && best.size <= best'.size
      {
        var j := b[k].index;
        assert b[k] in b;
        if j >= w.end2 {
          break;
        }
        if j >= w.begin2 {
          var size := LengthAt(prev, j);
          LengthFromPrevious(ka, keys, w, i, j, prev, size);
          EntryIsMatch(ka, keys, w, i, j);
          cur := cur + [Length(j, size)];
          best', modified' := Better(best', modified', Match(i + 1 - size, j + 1 - size, size));
        }
        k := k + 1;
      }
      RowFinished(w, i, from, k, cur);
      NoLongerAfter(ka, keys, w, i, cur, best.size, best'.size);
    }

    /** The longer block wins; of two equally long ones, the one with fewer modified rows. */
    method Better(best: Match, modified: Option<int>, m: Match) returns (best': Match, modified': Option<int>)
      ensures best' == best || best' == m
      ensures best.size <= best'.size && m.size <= best'.size
    {
      best', modified' := best, modified;
      if m.size > best.size {
        best', modified' := m, None;
      } else if m.size == best.size {
        if modified'.None? {
          modified' := Some(weight(best.j - m.size + 1, best.j + 1));
        }
        var count := weight(m.j, m.j + m.size);
        if count < modified'.value {
          best', modified' := m, Some(count);
        }
      }
    }

    /** The scan of the equal keys has seen every position of the window that matches. */
    lemma RowFinished(w: Window, i: nat, from: nat, k: nat, cur: seq<Length>)
      requires Valid() && w.Fits(Keys(a), keys) && w.begin1 <= i < w.end1 && from <= k <= |b|
      requires forall x :: 0 <= x < from ==> b[x].key < a[i].key
      requires k == |b| || b[k].key > a[i].key || (b[k].key == a[i].key && b[k].index >= w.end2)
      requires forall p <- cur :: IsEntry(Keys(a), keys, w, i, p)
      requires forall x :: from <= x < k && w.begin2 <= b[x].index < w.end2 ==>
                 Length(b[x].index, BlockEnding(Keys(a), keys, w, i, b[x].index)) in cur
      ensures IsRow(Keys(a), keys, w, i, cur)
    {
      forall j | w.begin2 <= j < w.end2 && Keys(a)[i] == keys[j]
        ensures Length(j, BlockEnding(Keys(a), keys, w, i, j)) in cur
      {
        assert Row(keys[j], j) in b;
        var x :| 0 <= x < |b| && b[x] == Row(keys[j], j);
        assert from <= x < k;
      }
    }

    /** A longest common block of the window. */
    method FindLongestMatch(w: Window) returns (best: Match)
      requires Valid() && w.Fits(Keys(a), keys)
      ensures IsLongest(Keys(a), keys, w, best)
    {
      ghost var ka := Keys(a);
      hide IsRow, BlockEnding, Keys;
      best := Match(w.begin1, w.begin2, 0);
      var modified: Option<int> := Some(0);
      var cur: seq<Length> := [];
      for i := w.begin1 to w.end1
        invariant IsPreviousRow(ka, keys, w, i, cur)
        invariant IsMatch(ka, keys, w, best) && NoLongerBefore(ka, keys, w, i, best.size)
      {
        var prev := cur;
        cur, best, modified := MatchRow(w, i, prev, best, modified);
      }
      forall m | IsMatch(ka, keys, w, m) ensures m.size <= best.size {
        if m.size > 0 {
          BlockEndingIsLongest(ka, keys, w, m);
        }
      }
    }

    /** Search the window around its longest block.  The right-hand search is entered only if
        the block ends before `end2` in both sequences. */
    method FindLongestMatches(w: Window) returns (ghost t: Search)
      requires Valid() && w.Fits(Keys(a), keys)
      modifies this
      ensures longestMatches == old(longestMatches) + Found(t) && IsSearch(Keys(a), keys, w, t)
      decreases w.end1 - w.begin1 + w.end2 - w.begin2
    {
      hide Common, Keys, IsMatch, IsSearch;
      var m := FindLongestMatch(w);
      LongestHolds(Keys(a), keys, w, m);
      if m.size == 0 {
        NothingCommon(Keys(a), keys, w, m);
        return Ended;
      }
      ghost var left, right := Ended, Ended;
      if m.i > w.begin1 && m.j > w.begin2 {
        left := FindLongestMatches(LeftOf(w, m));
      }
      longestMatches := longestMatches + [m];
      if m.i + m.size < w.end2 && m.j + m.size < w.end2 {
        right := FindLongestMatches(RightOf(w, m));
      }
      t := Around(left, m, right);
      SearchGoesOn(Keys(a), keys, w, t);
    }
  }
}
