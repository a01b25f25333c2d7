/**
 Deciding which of the paired rows stay in place: those of the common prefix and of the blocks
 that are found beyond it.
 */
module Alignment {
  import opened Wrappers
  import opened ChangeSets
  import opened Sequences
  import opened Sorting
  import opened Matching
  import opened Diff
  import opened KeptRows

  /** `a` are the paired rows in the order of the old collection. */
  ghost predicate OldOrder(rows: seq<RowInfo>, a: seq<Row>) {
    && |a| == |rows|
    && (forall x, y :: 0 <= x < y < |a| ==> a[x].index < a[y].index)
    && (forall r <- rows :: r.prev.Some? ==> Row(r.key, r.prev.value) in a)
    && forall e <- a :: exists r :: r in rows && r.key == e.key && r.prev == Some(e.index)
  }

  method OldRows(rows: seq<RowInfo>) returns (a: seq<Row>)
    requires forall r <- rows :: r.prev.Some?
    requires forall x, y :: 0 <= x < y < |rows| ==> rows[x].prev != rows[y].prev
    ensures OldOrder(rows, a)
  {
    var unsorted: seq<Row> := [];
    assert forall k :: 0 <= k < |rows| ==> rows[k] in rows;
    for k := 0 to |rows|
      invariant |unsorted| == k
      invariant forall x :: 0 <= x < k ==> unsorted[x] == Row(rows[x].key, rows[x].prev.value)
    {
      unsorted := unsorted + [Row(rows[k].key, rows[k].prev.value)];
    }
    var rank := (r: Row) => (r.index as int, r.key);
    a := Sort(unsorted, rank);
    SortedOldRows(rows, unsorted, a, rank);
  }

  lemma SortedOldRows(rows: seq<RowInfo>, unsorted: seq<Row>, a: seq<Row>, rank: Row -> (int, int))
    requires forall r <- rows :: r.prev.Some?
    requires forall x, y :: 0 <= x < y < |rows| ==> rows[x].prev != rows[y].prev
    requires |unsorted| == |rows| && forall x :: 0 <= x < |rows| ==>
              rows[x].prev.Some? && unsorted[x] == Row(rows[x].key, rows[x].prev.value)
    requires forall r :: rank(r) == (r.index as int, r.key)
    requires SortedBy(a, rank) && multiset(a) == multiset(unsorted)
    ensures OldOrder(rows, a)
  {
    assert NoRepeats(unsorted) by {
      forall x, y | 0 <= x < y < |unsorted| ensures unsorted[x] != unsorted[y] {
        assert rows[x].prev != rows[y].prev;
      }
    }
    SameElements(unsorted, a);
    forall x, y | 0 <= x < y < |a| ensures a[x].index < a[y].index {
      assert AtMost(rank(a[x]), rank(a[y]));
      assert a[x] in unsorted && a[y] in unsorted && a[x] != a[y];
      var k :| 0 <= k < |unsorted| && unsorted[k] == a[x];
      var l :| 0 <= l < |unsorted| && unsorted[l] == a[y];
      assert rows[k].prev != rows[l].prev;
    }
    forall r | r in rows ensures Row(r.key, r.prev.value) in a {
      var k :| 0 <= k < |rows| && rows[k] == r;
      assert unsorted[k] in unsorted;
    }
    forall e | e in a ensures exists r :: r in rows && r.key == e.key && r.prev == Some(e.index) {
      assert e in unsorted;
      var k :| 0 <= k < |unsorted| && unsorted[k] == e;
      assert rows[k] in rows;
    }
  }

  /** The rows with their positions in the new collection. */
  function NewRows(rows: seq<RowInfo>): (b: seq<Row>)
    ensures |b| == |rows|
  {
    seq(|rows|, k requires 0 <= k < |rows| => Row(rows[k].key, rows[k].index))
  }

  function RowKeys(rows: seq<RowInfo>): (keys: seq<int>)
    ensures |keys| == |rows|
  {
    Keys(NewRows(rows))
  }

  method SortedRows(rows: seq<RowInfo>) returns (b: seq<Row>)
    ensures SortedIndex(RowKeys(rows), b) && |b| == |rows|
  {
    var keys := RowKeys(rows);
    var unsorted: seq<Row> := [];
    for k := 0 to |rows|
      invariant |unsorted| == k && forall x :: 0 <= x < k ==> unsorted[x] == Row(rows[x].key, x)
    {
      unsorted := unsorted + [Row(rows[k].key, k)];
    }
    var rank := (r: Row) => (r.key, r.index as int);
    b := Sort(unsorted, rank);
    SameElements(unsorted, b);
    forall j | 0 <= j < |keys| ensures Row(keys[j], j) in b {
      assert unsorted[j] in unsorted;
    }
    forall x, y | 0 <= x < y < |b|
      ensures b[x].key < b[y].key || (b[x].key == b[y].key && b[x].index < b[y].index)
    {
      assert AtMost(rank(b[x]), rank(b[y]));
    }
  }

  // ---------------------------------------------------------------------------
  // Aligning the two orders

  /** Rows `[0, i)` of the old order and `[0, j)` of the new one are settled; those at
      `p` and `q` are kept, in order and with equal keys. */
  ghost predicate Aligned(a: seq<int>, b: seq<int>, i: nat, j: nat, p: seq<nat>, q: seq<nat>) {
    && i <= |a| && j <= |b| && |p| == |q| && Increasing(p) && Increasing(q)
    && forall k :: 0 <= k < |p| ==> p[k] < i && q[k] < j && a[p[k]] == b[q[k]]
  }

  function Run(from: nat, size: nat): seq<nat> {
    seq(size, k => from + k)
  }

  /** The positions of the blocks, in the old order or in the new one. */
  function Runs(matches: seq<Match>, inOld: bool): seq<nat> {
    if matches == [] then [] else
      var m := matches[|matches| - 1];
      Runs(matches[..|matches| - 1], inOld) + Run(if inOld then m.i else m.j, m.size)
  }

  lemma NoRuns(front: seq<nat>, matches: seq<Match>)
    ensures front + Runs(matches[..0], true) == front + Runs(matches[..0], false) == front
  {
  }

  lemma RunsNext(front: seq<nat>, matches: seq<Match>, k: nat, inOld: bool)
    requires k < |matches|
    ensures front + Runs(matches[..k + 1], inOld)
         == front + Runs(matches[..k], inOld) + Run(if inOld then matches[k].i else matches[k].j, matches[k].size)
  {
    assert matches[..k + 1][..k] == matches[..k];
  }

  lemma AlignBlock(a: seq<int>, b: seq<int>, i: nat, j: nat, p: seq<nat>, q: seq<nat>, m: Match)
    requires Aligned(a, b, i, j, p, q) && i == m.i && j == m.j
    requires m.i + m.size <= |a| && m.j + m.size <= |b| && Common(a, b, m.i, m.j, m.size)
    ensures Aligned(a, b, i + m.size, j + m.size, p + Run(i, m.size), q + Run(j, m.size))
  {
    var p', q' := p + Run(i, m.size), q + Run(j, m.size);
    forall k | 0 <= k < |p'|
      ensures p'[k] < i + m.size && q'[k] < j + m.size && a[p'[k]] == b[q'[k]]
    {
      if k >= |p| {
        assert a[m.i..m.i + m.size][k - |p|] == b[m.j..m.j + m.size][k - |p|];
      }
    }
  }

  /** Positions, through `index`, of the settled entries that are not kept. */
  ghost predicate Dropped(index: seq<nat>, i: nat, p: seq<nat>, base: set<nat>, s: set<nat>) {
    && i <= |index|
    && forall x :: x in s <==> x in base || exists k :: 0 <= k < i && k !in p && index[k] == x
  }

  lemma RunMembers(n: nat)
    ensures Increasing(Run(0, n)) && forall e: nat :: e in Run(0, n) <==> e < n
  {
    forall e: nat | e < n ensures e in Run(0, n) {
      assert Run(0, n)[e] == e;
    }
  }

  lemma DropsMore(index: seq<nat>, i: nat, p: seq<nat>, base: set<nat>, s: set<nat>)
    requires Dropped(index, i, p, base, s)
    ensures base <= s
  {
  }

  lemma DropOne(index: seq<nat>, i: nat, p: seq<nat>, base: set<nat>, s: set<nat>)
    requires Dropped(index, i, p, base, s) && i < |index| && i !in p
    ensures Dropped(index, i + 1, p, base, s + {index[i]})
  {
  }

  lemma KeepRun(index: seq<nat>, i: nat, p: seq<nat>, base: set<nat>, s: set<nat>, size: nat)
    requires Dropped(index, i, p, base, s) && i + size <= |index| && forall k <- p :: k < i
    ensures Dropped(index, i + size, p + Run(i, size), base, s)
  {
    var p' := p + Run(i, size);
    forall k | i <= k < i + size ensures k in p' {
      assert p'[|p| + (k - i)] == k;
    }
    assert forall k :: 0 <= k < i ==> (k in p' <==> k in p);
  }

  /** Add the positions of the entries `[from, to)`. */
  method Drop(index: seq<nat>, from: nat, to: nat, s: set<nat>, ghost p: seq<nat>, ghost base: set<nat>)
    returns (s': set<nat>)
    requires Dropped(index, from, p, base, s) && from <= to <= |index| && forall k <- p :: k < from
    ensures Dropped(index, to, p, base, s')
  {
    s' := s;
    for i := from to to
      invariant Dropped(index, i, p, base, s')
    {
      DropOne(index, i, p, base, s');
      s' := s' + {index[i]};
    }
  }

  function Positions(a: seq<Row>): (index: seq<nat>)
    ensures |index| == |a|
  {
    seq(|a|, k requires 0 <= k < |a| => a[k].index)
  }

  /** The chain, from the `k`-th block on, never goes back behind `i` and `j`. */
  ghost predicate Ahead(a: seq<int>, b: seq<int>, i: nat, j: nat, matches: seq<Match>) {
    && i <= |a| && j <= |b|
    && (forall m <- matches :: i <= m.i && j <= m.j && m.i + m.size <= |a| && m.j + m.size <= |b|
          && Common(a, b, m.i, m.j, m.size))
    && forall x, y :: 0 <= x < y < |matches| ==>
         matches[x].i + matches[x].size <= matches[y].i && matches[x].j + matches[x].size <= matches[y].j
  }

  lemma AheadTail(a: seq<int>, b: seq<int>, i: nat, j: nat, matches: seq<Match>)
    requires Ahead(a, b, i, j, matches) && matches != []
    ensures var m := matches[0];
            && i <= m.i && j <= m.j && m.i + m.size <= |a| && m.j + m.size <= |b| && Common(a, b, m.i, m.j, m.size)
            && Ahead(a, b, m.i + m.size, m.j + m.size, matches[1..])
  {
    hide Common;
    var rest := matches[1..];
    assert matches[0] in matches;
    forall m | m in rest
      ensures m in matches && matches[0].i + matches[0].size <= m.i && matches[0].j + matches[0].size <= m.j
    {
      var x :| 0 <= x < |rest| && rest[x] == m;
      assert matches[x + 1] == m;
    }
  }

  lemma KeptBefore(a: seq<int>, b: seq<int>, i: nat, j: nat, p: seq<nat>, q: seq<nat>, i': nat, j': nat)
    requires Aligned(a, b, i, j, p, q) && i <= i' <= |a| && j <= j' <= |b|
    ensures (forall k <- p :: k < i) && forall k <- q :: k < j
    ensures Aligned(a, b, i', j', p, q)
  {
  }

  /** Delete and insert what lies between the blocks; the blocks themselves stay. */
  method Align(a: seq<Row>, rows: seq<RowInfo>, matches: seq<Match>, start: nat, deletions: set<nat>,
               insertions: set<nat>)
      returns (d: set<nat>, n: set<nat>, ghost p: seq<nat>, ghost q: seq<nat>)
    requires start <= |a| == |rows|
    requires Aligned(Keys(a), RowKeys(rows), start, start, Run(0, start), Run(0, start))
    requires matches != [] && matches[|matches| - 1] == Match(|a|, |rows|, 0)
    requires Ahead(Keys(a), RowKeys(rows), start, start, matches)
    ensures p == Run(0, start) + Runs(matches, true) && q == Run(0, start) + Runs(matches, false)
    ensures Aligned(Keys(a), RowKeys(rows), |a|, |rows|, p, q)
    ensures Dropped(Positions(a), |a|, p, deletions, d) && Dropped(Positions(NewRows(rows)), |rows|, q, insertions, n)
  {
    hide Keys, RowKeys, Common, Increasing, Run, Runs, Aligned, Dropped, Positions, NewRows, Ahead;
    NoRuns(Run(0, start), matches);
    assert matches[0..] == matches;
    var i: nat, j: nat := start, start;
    d, n, p, q := deletions, insertions, Run(0, start), Run(0, start);
    StartDropped(Positions(a), start, deletions);
    StartDropped(Positions(NewRows(rows)), start, insertions);
    for k := 0 to |matches|
      invariant i <= |a| && j <= |rows|
      invariant p == Run(0, start) + Runs(matches[..k], true) && q == Run(0, start) + Runs(matches[..k], false)
      invariant Aligned(Keys(a), RowKeys(rows), i, j, p, q)
      invariant Ahead(Keys(a), RowKeys(rows), i, j, matches[k..])
      invariant Dropped(Positions(a), i, p, deletions, d) && Dropped(Positions(NewRows(rows)), j, q, insertions, n)
      invariant k == |matches| ==> i == |a| && j == |rows|
    {
      var m := matches[k];
      AheadTail(Keys(a), RowKeys(rows), i, j, matches[k..]);
      assert matches[k..][0] == m && matches[k..][1..] == matches[k + 1..];
      KeptBefore(Keys(a), RowKeys(rows), i, j, p, q, m.i, m.j);
      d := Drop(Positions(a), i, m.i, d, p, deletions);
      n := Drop(Positions(NewRows(rows)), j, m.j, n, q, insertions);
      i, j := m.i, m.j;
      AlignBlock(Keys(a), RowKeys(rows), i, j, p, q, m);
      KeepRun(Positions(a), i, p, deletions, d, m.size);
      KeepRun(Positions(NewRows(rows)), j, q, insertions, n, m.size);
      RunsNext(Run(0, start), matches, k, true);
      RunsNext(Run(0, start), matches, k, false);
      p, q := p + Run(i, m.size), q + Run(j, m.size);
      i, j := i + m.size, j + m.size;
    }
    assert matches[..|matches|] == matches;
  }

  lemma StartDropped(index: seq<nat>, start: nat, base: set<nat>)
    requires start <= |index|
    ensures Dropped(index, start, Run(0, start), base, base)
  {
    forall k | 0 <= k < start ensures k in Run(0, start) {
      assert Run(0, start)[k] == k;
    }
  }

  lemma OldRowAt(before: seq<int>, after: seq<int>, rows: seq<RowInfo>, a: seq<Row>, d0: set<nat>, n0: set<nat>, l: nat)
    requires PairsUp(before, after, rows, d0, n0) && OldOrder(rows, a) && l < |a|
    ensures a[l].index < |before| && a[l].key == before[a[l].index]
  {
    hide PairsUp;
    assert a[l] in a;
    var r :| r in rows && r.key == a[l].key && r.prev == Some(a[l].index);
    var k :| 0 <= k < |rows| && rows[k] == r;
    RowAt(before, after, rows, d0, n0, k);
  }

  lemma InOrder(before: seq<int>, after: seq<int>, rows: seq<RowInfo>, a: seq<Row>, d0: set<nat>, n0: set<nat>)
    requires PairsUp(before, after, rows, d0, n0) && OldOrder(rows, a)
    ensures Increasing(Positions(a)) && Increasing(Positions(NewRows(rows)))
  {
  }

  lemma PositionsAt(before: seq<int>, after: seq<int>, rows: seq<RowInfo>, a: seq<Row>, d0: set<nat>, n0: set<nat>)
    requires PairsUp(before, after, rows, d0, n0) && OldOrder(rows, a)
    ensures Increasing(Positions(a)) && Increasing(Positions(NewRows(rows)))
    ensures |a| == |rows|
    ensures forall l :: 0 <= l < |a| ==> Positions(a)[l] < |before| && Keys(a)[l] == before[Positions(a)[l]]
    ensures forall l :: 0 <= l < |rows| ==>
              Positions(NewRows(rows))[l] < |after| && RowKeys(rows)[l] == after[Positions(NewRows(rows))[l]]
  {
    InOrder(before, after, rows, a, d0, n0);
    SameLength(rows, a);
    hide PairsUp, OldOrder, Increasing;
    forall l | 0 <= l < |a| ensures a[l].index < |before| && a[l].key == before[a[l].index] {
      OldRowAt(before, after, rows, a, d0, n0, l);
    }
    forall l | 0 <= l < |rows| ensures rows[l].index < |after| && rows[l].key == after[rows[l].index] {
      RowAt(before, after, rows, d0, n0, l);
    }
  }

  lemma SamePositions(rows: seq<RowInfo>, a: seq<Row>, p: seq<nat>)
    requires OldOrder(rows, a) && |p| == |rows| && forall k :: 0 <= k < |rows| ==> rows[k].prev == Some(p[k])
    ensures forall x :: x in p <==> x in Positions(a)
  {
    forall x | x in p ensures x in Positions(a) {
      var k :| 0 <= k < |p| && p[k] == x;
      assert rows[k] in rows;
      var l :| 0 <= l < |a| && a[l] == Row(rows[k].key, x);
      assert Positions(a)[l] == x;
    }
    forall x | x in Positions(a) ensures x in p {
      var l :| 0 <= l < |a| && Positions(a)[l] == x;
      assert a[l] in a;
      var r :| r in rows && r.prev == Some(x);
      var k :| 0 <= k < |rows| && rows[k] == r;
      assert p[k] == x;
    }
  }

  /** What is not paired is everything but the positions of the paired rows. */
  lemma UnpairedAreOthers(before: seq<int>, after: seq<int>, rows: seq<RowInfo>, a: seq<Row>, d0: set<nat>,
                          n0: set<nat>)
    requires PairsUp(before, after, rows, d0, n0) && OldOrder(rows, a)
    ensures d0 == Others(|before|, Positions(a)) && n0 == Others(|after|, Positions(NewRows(rows)))
  {
    hide PairsUp, OldOrder, Positions;
    var p: seq<nat> := [];
    for k := 0 to |rows|
      invariant |p| == k && forall l :: 0 <= l < k ==> rows[l].prev == Some(p[l])
    {
      RowAt(before, after, rows, d0, n0, k);
      p := p + [rows[k].prev.value];
    }
    SamePositions(rows, a, p);
    NewPositions(rows);
    OthersOfRows(before, after, rows, d0, n0, p, Positions(NewRows(rows)));
  }

  lemma NewPositions(rows: seq<RowInfo>)
    ensures forall k :: 0 <= k < |rows| ==> rows[k].index == Positions(NewRows(rows))[k]
  {
  }

  /** An entry that is kept is not dropped: no other one has its position. */
  lemma KeptStays(n: nat, index: seq<nat>, p: seq<nat>, base: set<nat>, s: set<nat>, k: nat)
    requires Dropped(index, |index|, p, base, s) && base == Others(n, index) && Increasing(index)
    requires k < |index| && k in p
    ensures index[k] !in s
  {
    assert index[k] in index;
    forall l | 0 <= l < |index| && l !in p ensures index[l] != index[k] {
      assert l != k;
    }
  }

  /** Dropped are all positions but those of the entries that are kept. */
  lemma DroppedAreOthers(n: nat, index: seq<nat>, p: seq<nat>, p': seq<nat>, base: set<nat>, s: set<nat>)
    requires Dropped(index, |index|, p, base, s) && base == Others(n, index) && Increasing(index)
    requires forall l :: 0 <= l < |index| ==> index[l] < n
    requires |p'| == |p| && forall k :: 0 <= k < |p| ==> p[k] < |index| && p'[k] == index[p[k]]
    ensures s == Others(n, p')
  {
    forall x: nat ensures x in s <==> x in Others(n, p') {
      if x in p' {
        var k :| 0 <= k < |p'| && p'[k] == x;
        KeptStays(n, index, p, base, s, p[k]);
      } else if x < n && x !in base {
        var l :| 0 <= l < |index| && index[l] == x;
        forall k | 0 <= k < |p| ensures p[k] != l {
          assert p'[k] in p';
        }
      }
    }
  }

  lemma KeptAt(a: seq<int>, b: seq<int>, p: seq<nat>, q: seq<nat>)
    requires Aligned(a, b, |a|, |b|, p, q)
    ensures |p| == |q| && Increasing(p) && Increasing(q)
    ensures forall k :: 0 <= k < |p| ==> p[k] < |a| && q[k] < |b| && a[p[k]] == b[q[k]]
  {
  }

  /** The outcome of an alignment is the change. */
  lemma AlignedDescribes(before: seq<int>, after: seq<int>, rows: seq<RowInfo>, a: seq<Row>,
                         d0: set<nat>, n0: set<nat>, d: set<nat>, n: set<nat>,
                         p: seq<nat>, q: seq<nat>, modified: set<nat>)
    requires PairsUp(before, after, rows, d0, n0) && OldOrder(rows, a)
    requires Aligned(Keys(a), RowKeys(rows), |a|, |rows|, p, q)
    requires Dropped(Positions(a), |a|, p, d0, d) && Dropped(Positions(NewRows(rows)), |rows|, q, n0, n)
    ensures Describes(Changes(d, n, modified, []), before, after)
    ensures |d| + |p| == |before|
  {
    hide PairsUp, OldOrder, Dropped, Positions, NewRows, Keys, RowKeys, Others, Describes, Aligned;
    var olds, news := Positions(a), Positions(NewRows(rows));
    KeptAt(Keys(a), RowKeys(rows), p, q);
    PositionsAt(before, after, rows, a, d0, n0);
    UnpairedAreOthers(before, after, rows, a, d0, n0);
    var p' := seq(|p|, k requires 0 <= k < |p| => olds[p[k]]);
    var q' := seq(|q|, k requires 0 <= k < |q| => news[q[k]]);
    DroppedAreOthers(|before|, olds, p, p', d0, d);
    DroppedAreOthers(|after|, news, q, q', n0, n);
    KeptDescribes(before, after, p', q', modified);
    OthersSize(|before|, p');
  }

  /** Rows that have the same keys in both orders are kept without looking for blocks. */
  method FirstDifference(a: seq<Row>, rows: seq<RowInfo>) returns (first: nat)
    requires |a| == |rows|
    ensures first <= |a| && (first < |a| ==> a[first].key != rows[first].key)
    ensures forall l :: 0 <= l < first ==> a[l].key == rows[l].key
    ensures Aligned(Keys(a), RowKeys(rows), first, first, Run(0, first), Run(0, first))
  {
    first := 0;
    while first < |a| && a[first].key == rows[first].key
      invariant first <= |a|
      invariant forall k :: 0 <= k < first ==> a[k].key == rows[k].key
    {
      first := first + 1;
    }
  }

  lemma ChainIsAhead(a: seq<int>, b: seq<int>, w: Window, start: nat, found: seq<Match>, matches: seq<Match>)
    requires w == Window(start, |a|, start, |b|) && start <= |a| == |b|
    requires Chain(a, b, w, found)
    requires matches == found + [Match(|a|, |b|, 0)]
    ensures Ahead(a, b, start, start, matches)
  {
    forall x: nat | x < |found| ensures found[x] in found && IsMatch(a, b, w, found[x]) {
    }
    CommonEmpty(a, b, |a|, |b|);
  }

  lemma CommonSuffix(a: seq<int>, b: seq<int>, i: nat, j: nat, size: nat, cut: nat)
    requires i + size <= |a| && j + size <= |b| && cut <= size && Common(a, b, i, j, size)
    ensures Common(a, b, i + cut, j + cut, size - cut)
  {
    assert a[i + cut..i + size] == a[i..i + size][cut..];
    assert b[j + cut..j + size] == b[j..j + size][cut..];
  }

  lemma {:induction false} RunsSize(matches: seq<Match>, k: nat)
    requires k < |matches|
    ensures |Runs(matches, true)| >= matches[k].size
  {
    var n := |matches| - 1;
    if k < n {
      RunsSize(matches[..n], k);
    }
  }

  /** No common block is longer than what is kept: the common prefix and a longest block after it. */
  lemma KeptAtLeast(a: seq<int>, b: seq<int>, first: nat, found: seq<Match>, i: nat, j: nat, size: nat)
    requires first <= |a| == |b| && i + size <= |a| && j + size <= |b| && Common(a, b, i, j, size)
    requires LongestAmong(a, b, Window(first, |a|, first, |a|), found)
    ensures size <= |Run(0, first) + Runs(found + [Match(|a|, |b|, 0)], true)|
  {
    hide Runs, Common;
    var matches := found + [Match(|a|, |b|, 0)];
    var cut := if i < first && i <= j then first - i else if j < first then first - j else 0;
    if cut < size {
      CommonSuffix(a, b, i, j, size, cut);
      var m := Match(i + cut, j + cut, size - cut);
      assert IsMatch(a, b, Window(first, |a|, first, |a|), m);
      var n :| n in found && m.size <= n.size;
      var k :| 0 <= k < |found| && found[k] == n;
      assert matches[k] == n;
      RunsSize(matches, k);
    }
  }

  lemma PrevsDiffer(before: seq<int>, after: seq<int>, rows: seq<RowInfo>, deletions: set<nat>, insertions: set<nat>)
    requires PairsUp(before, after, rows, deletions, insertions)
    ensures forall r <- rows :: r.prev.Some?
    ensures forall x, y :: 0 <= x < y < |rows| ==> rows[x].prev != rows[y].prev
  {
  }

  /** No common block of the two orders is longer than the rows that stay are many. */
  ghost predicate KeepsLongest(before: seq<int>, d: set<nat>, a: seq<int>, b: seq<int>) {
    forall i: nat, j: nat, size: nat :: i + size <= |a| && j + size <= |b| && Common(a, b, i, j, size) ==>
      size + |d| <= |before|
  }

  /** The blocks that are found beyond the common prefix, and the end. */
  method FindBlocks(a: seq<Row>, rows: seq<RowInfo>, first: nat, weight: (int, int) -> int)
      returns (matches: seq<Match>, ghost t: Search)
    requires OldOrder(rows, a) && first < |a|
    ensures |a| == |rows| && matches == Found(t) + [Match(|a|, |rows|, 0)]
    ensures IsSearch(Keys(a), RowKeys(rows), Window(first, |a|, first, |a|), t)
    ensures Ahead(Keys(a), RowKeys(rows), first, first, matches)
  {
    hide Keys, RowKeys, Common, IsMatch, IsSearch, Chain, Ahead, NewRows;
    SameLength(rows, a);
    var b := SortedRows(rows);
    OldKeysKnown(rows, a);
    var lcs := new LongestCommonSubsequenceCalculator(a, b, RowKeys(rows), first, weight);
    matches := lcs.longestMatches;
    ghost var w := Window(first, |a|, first, |a|);
    t :| IsSearch(Keys(a), RowKeys(rows), w, t) && matches == Found(t) + [Match(|a|, |b|, 0)];
    SearchIsChain(Keys(a), RowKeys(rows), w, t);
    ChainIsAhead(Keys(a), RowKeys(rows), w, first, Found(t), matches);
  }

  /** Look for blocks beyond the common prefix and align along them. */
  method AlignByBlocks(a: seq<Row>, rows: seq<RowInfo>, first: nat, deletions: set<nat>, insertions: set<nat>,
                       weight: (int, int) -> int)
      returns (d: set<nat>, n: set<nat>, ghost p: seq<nat>, ghost q: seq<nat>, ghost t: Search)
    requires OldOrder(rows, a) && first < |a|
    requires Aligned(Keys(a), RowKeys(rows), first, first, Run(0, first), Run(0, first))
    ensures |a| == |rows| && IsSearch(Keys(a), RowKeys(rows), Window(first, |a|, first, |a|), t)
    ensures p == Run(0, first) + Runs(Found(t) + [Match(|a|, |a|, 0)], true)
    ensures q == Run(0, first) + Runs(Found(t) + [Match(|a|, |a|, 0)], false)
    ensures deletions <= d && insertions <= n
    ensures Aligned(Keys(a), RowKeys(rows), |a|, |rows|, p, q)
    ensures Dropped(Positions(a), |a|, p, deletions, d) && Dropped(Positions(NewRows(rows)), |rows|, q, insertions, n)
    ensures forall k: nat :: k < first ==> k in p && k in q
    ensures forall i: nat, j: nat, size: nat ::
              i + size <= |a| && j + size <= |rows| && Common(Keys(a), RowKeys(rows), i, j, size) ==> size <= |p|
  {
    hide Keys, RowKeys, Run, Runs, Common, Aligned, Ahead, IsSearch, LongestAmong, OldOrder, Dropped, Positions,
         NewRows;
    var matches;
    matches, t := FindBlocks(a, rows, first, weight);
    SearchHasLongest(Keys(a), RowKeys(rows), Window(first, |a|, first, |a|), t);
    d, n, p, q := Align(a, rows, matches, first, deletions, insertions);
    RunMembers(first);
    DropsMore(Positions(a), |a|, p, deletions, d);
    DropsMore(Positions(NewRows(rows)), |rows|, q, insertions, n);
    forall i: nat, j: nat, size: nat | i + size <= |a| && j + size <= |a| && Common(Keys(a), RowKeys(rows), i, j, size)
      ensures size <= |p|
    {
      KeptAtLeast(Keys(a), RowKeys(rows), first, Found(t), i, j, size);
    }
  }

  lemma {:induction false} RunsMembers(matches: seq<Match>, inOld: bool, l: nat)
    ensures l in Runs(matches, inOld) <==> InBlock(matches, inOld, l)
  {
    if matches != [] {
      var n := |matches| - 1;
      var m := matches[n];
      RunsMembers(matches[..n], inOld, l);
      RunIs(if inOld then m.i else m.j, m.size, l);
      hide Run, Runs;
      RunsLast(matches, inOld);
      assert matches == matches[..n] + [m];
    }
  }

  lemma RunIs(from: nat, size: nat, l: nat)
    ensures l in Run(from, size) <==> from <= l < from + size
  {
    if from <= l < from + size {
      assert Run(from, size)[l - from] == l;
    }
  }

  lemma RunsLast(matches: seq<Match>, inOld: bool)
    requires matches != []
    ensures var n := |matches| - 1;
            Runs(matches, inOld) ==
              Runs(matches[..n], inOld) + Run(if inOld then matches[n].i else matches[n].j, matches[n].size)
  {
  }

  /** The prefix and the blocks, without the empty block at the end. */
  lemma KeptStay(first: nat, found: seq<Match>, n: nat, inOld: bool)
    ensures forall l: nat ::
              l in Run(0, first) + Runs(found + [Match(n, n, 0)], inOld) <==> Stays(first, found, inOld, l)
  {
    hide Run, Runs;
    forall l: nat
      ensures l in Run(0, first) + Runs(found + [Match(n, n, 0)], inOld) <==> Stays(first, found, inOld, l)
    {
      RunIs(0, first, l);
      RunsMembers(found + [Match(n, n, 0)], inOld, l);
    }
  }

  /** Then everything but what stays is dropped. */
  lemma DroppedAllBut(size: nat, index: seq<nat>, p: seq<nat>, base: set<nat>, s: set<nat>, first: nat,
                      found: seq<Match>, inOld: bool)
    requires Dropped(index, |index|, p, base, s) && base == Others(size, index) && Increasing(index)
    requires forall l :: 0 <= l < |index| ==> index[l] < size
    requires forall l: nat :: l in p <==> Stays(first, found, inOld, l)
    ensures AllButStaying(size, index, first, found, inOld, s)
  {
    hide Stays;
    forall x: nat
      ensures x in s <==> x < size && forall l :: 0 <= l < |index| && Stays(first, found, inOld, l) ==> index[l] != x
    {
      if x in index {
        var k :| 0 <= k < |index| && index[k] == x;
        if k in p {
          KeptStays(size, index, p, base, s, k);
        }
      }
    }
  }

  /** The rows that stay are exactly those of the common prefix and of the blocks of a search of the rest. */
  ghost predicate KeepsBlocks(before: seq<int>, after: seq<int>, rows: seq<RowInfo>, order: seq<Row>, w: Window,
                              t: Search, d: set<nat>, n: set<nat>) {
    && SearchedRest(Keys(order), RowKeys(rows), w, t)
    && AllButStaying(|before|, Positions(order), w.begin1, Found(t), true, d)
    && AllButStaying(|after|, Positions(NewRows(rows)), w.begin1, Found(t), false, n)
  }

  /** Without a difference there is nothing to search. */
  lemma NothingToSearch(a: seq<int>, b: seq<int>)
    requires |a| == |b| && forall l :: 0 <= l < |a| ==> a[l] == b[l]
    ensures SearchedRest(a, b, Window(|a|, |a|, |a|, |a|), Ended)
  {
  }

  lemma SameKeys(a: seq<Row>, rows: seq<RowInfo>, first: nat)
    requires first <= |a| == |rows| && forall l :: 0 <= l < first ==> a[l].key == rows[l].key
    ensures forall l :: 0 <= l < first ==> Keys(a)[l] == RowKeys(rows)[l]
    ensures first < |a| && a[first].key != rows[first].key ==> Keys(a)[first] != RowKeys(rows)[first]
  {
  }

  /** Decide which of the paired rows stay in place, and delete and insert the others. */
  method CalculateMovesSorted(ghost before: seq<int>, ghost after: seq<int>, rows: seq<RowInfo>,
                              deletions: set<nat>, insertions: set<nat>, weight: (int, int) -> int)
      returns (d: set<nat>, n: set<nat>, ghost order: seq<Row>, ghost w: Window, ghost t: Search)
    requires PairsUp(before, after, rows, deletions, insertions)
    ensures deletions <= d && insertions <= n && OldOrder(rows, order)
    ensures KeepsBlocks(before, after, rows, order, w, t, d, n)
    ensures forall modified :: Describes(Changes(d, n, modified, []), before, after)
    ensures KeepsLongest(before, d, Keys(order), RowKeys(rows))
    ensures forall k: nat :: k < |order| && Keys(order)[..k + 1] == RowKeys(rows)[..k + 1] ==>
              order[k].index !in d && rows[k].index !in n
    ensures Keys(order) == RowKeys(rows) ==> d == deletions && n == insertions
  {
    hide Keys, RowKeys, Common, OldOrder, PairsUp, Aligned, Dropped, Describes, Positions, NewRows, KeepsBlocks,
         IsSearch, Runs;
    PrevsDiffer(before, after, rows, deletions, insertions);
    var a := OldRows(rows);
    SameLength(rows, a);
    order := a;
    var first := FirstDifference(a, rows);
    ghost var p, q := Run(0, first), Run(0, first);
    d, n := deletions, insertions;
    StartDropped(Positions(a), first, d);
    StartDropped(Positions(NewRows(rows)), first, n);
    w, t := Window(first, |a|, first, |a|), Ended;
    SameKeys(a, rows, first);
    if first < |a| {
      FirstDiffers(a, rows, first);
      d, n, p, q, t := AlignByBlocks(a, rows, first, deletions, insertions, weight);
    } else {
      NothingToSearch(Keys(a), RowKeys(rows));
      NoBlocks(first, true);
      NoBlocks(first, false);
    }
    BlocksKept(before, after, rows, a, deletions, insertions, d, n, p, q, w, t);
    RunMembers(first);
    forall k: nat | k < |a| && Keys(a)[..k + 1] == RowKeys(rows)[..k + 1]
      ensures a[k].index !in d && rows[k].index !in n
    {
      PrefixKept(before, after, rows, a, deletions, insertions, d, n, p, q, first, k);
    }
    AlignedDescribes(before, after, rows, a, deletions, insertions, d, n, p, q, {});
    forall modified ensures Describes(Changes(d, n, modified, []), before, after) {
      AlignedDescribes(before, after, rows, a, deletions, insertions, d, n, p, q, modified);
    }
  }

  lemma NoBlocks(n: nat, inOld: bool)
    ensures Run(0, n) == Run(0, n) + Runs(Found(Ended) + [Match(n, n, 0)], inOld)
  {
    var end := [Match(n, n, 0)];
    assert Found(Ended) + end == end && end[..0] == [] && Run(0, n) + [] == Run(0, n);
    assert Runs(end, inOld) == Runs(end[..0], inOld) + Run(n, 0) == [];
    assert Runs(Found(Ended) + [Match(n, n, 0)], inOld) == [];
  }

  lemma BlocksKept(before: seq<int>, after: seq<int>, rows: seq<RowInfo>, a: seq<Row>, d0: set<nat>, n0: set<nat>,
                   d: set<nat>, n: set<nat>, p: seq<nat>, q: seq<nat>, w: Window, t: Search)
    requires PairsUp(before, after, rows, d0, n0) && OldOrder(rows, a)
    requires Dropped(Positions(a), |a|, p, d0, d) && Dropped(Positions(NewRows(rows)), |rows|, q, n0, n)
    requires SearchedRest(Keys(a), RowKeys(rows), w, t)
    requires p == Run(0, w.begin1) + Runs(Found(t) + [Match(|a|, |a|, 0)], true)
    requires q == Run(0, w.begin1) + Runs(Found(t) + [Match(|a|, |a|, 0)], false)
    ensures KeepsBlocks(before, after, rows, a, w, t, d, n)
  {
    hide PairsUp, OldOrder, Dropped, Positions, NewRows, Increasing, Others, SearchedRest, AllButStaying, Stays,
         Run, Runs, Found;
    PositionsAt(before, after, rows, a, d0, n0);
    UnpairedAreOthers(before, after, rows, a, d0, n0);
    KeptStay(w.begin1, Found(t), |a|, true);
    KeptStay(w.begin1, Found(t), |a|, false);
    DroppedAllBut(|before|, Positions(a), p, d0, d, w.begin1, Found(t), true);
    DroppedAllBut(|after|, Positions(NewRows(rows)), q, n0, n, w.begin1, Found(t), false);
  }

  lemma PrefixKept(before: seq<int>, after: seq<int>, rows: seq<RowInfo>, a: seq<Row>, d0: set<nat>, n0: set<nat>,
                   d: set<nat>, n: set<nat>, p: seq<nat>, q: seq<nat>, first: nat, k: nat)
    requires PairsUp(before, after, rows, d0, n0) && OldOrder(rows, a)
    requires Dropped(Positions(a), |a|, p, d0, d) && Dropped(Positions(NewRows(rows)), |rows|, q, n0, n)
    requires forall l: nat :: l < first ==> l in p && l in q
    requires first <= |a| == |rows| && (first < |a| ==> a[first].key != rows[first].key)
    requires k < |a| && Keys(a)[..k + 1] == RowKeys(rows)[..k + 1]
    ensures a[k].index !in d && rows[k].index !in n
  {
    hide PairsUp, OldOrder, Dropped, Increasing, Others;
    forall l: nat | l <= k ensures a[l].key == rows[l].key {
      assert Keys(a)[..k + 1][l] == RowKeys(rows)[..k + 1][l];
    }
    assert k < first;
    PositionsAt(before, after, rows, a, d0, n0);
    UnpairedAreOthers(before, after, rows, a, d0, n0);
    KeptStays(|before|, Positions(a), p, d0, d, k);
    KeptStays(|after|, Positions(NewRows(rows)), q, n0, n, k);
  }

  lemma SameLength(rows: seq<RowInfo>, a: seq<Row>)
    requires OldOrder(rows, a)
    ensures |a| == |rows|
  {
  }

  lemma FirstDiffers(a: seq<Row>, rows: seq<RowInfo>, first: nat)
    requires first < |a| == |rows| && a[first].key != rows[first].key
    ensures Keys(a) != RowKeys(rows)
  {
    assert Keys(a)[first] != RowKeys(rows)[first];
  }

  lemma OldKeysKnown(rows: seq<RowInfo>, a: seq<Row>)
    requires OldOrder(rows, a)
    ensures forall e <- a :: e.key in RowKeys(rows)
  {
    forall e | e in a ensures e.key in RowKeys(rows) {
      var r :| r in rows && r.key == e.key;
      var k :| 0 <= k < |rows| && rows[k] == r;
      assert RowKeys(rows)[k] == e.key;
    }
  }
}
