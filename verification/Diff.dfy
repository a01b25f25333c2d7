/**
 The change between two query results: rows are paired up by key, and unless both results
 are in table order, longest common blocks decide which paired rows stay in place.
 */
module Diff {
  import opened Wrappers
  import opened IndexAlgebra
  import opened ChangeSets
  import opened Sequences
  import opened Sorting

  // ---------------------------------------------------------------------------
  // Rows kept in place

  function Others(n: nat, p: seq<nat>): set<nat> {
    Interval(0, n) - set x | x in p
  }

  lemma {:induction false} SkipMembers(s: set<nat>, lo: nat, hi: nat)
    requires lo <= hi && forall x :: lo <= x < hi ==> x in s
    ensures Unshift(s, hi) == Unshift(s, lo)
    decreases hi - lo
  {
    if lo < hi {
      SkipMembers(s, lo, hi - 1);
    }
  }

  /** Once all others are removed, the `k`-th kept row is at `k`. */
  lemma {:induction false} KeptRank(n: nat, p: seq<nat>, k: nat)
    requires Increasing(p) && (forall x <- p :: x < n) && k <= |p|
    ensures Unshift(Others(n, p), if k < |p| then p[k] else n) == k
    decreases k
  {
    var s, at := Others(n, p), if k < |p| then p[k] else n;
    var lo := if k == 0 then 0 else p[k - 1] + 1;
    if k > 0 {
      KeptRank(n, p, k - 1);
      assert p[k - 1] in p;
    }
    if k < |p| {
      assert p[k] in p;
    }
    forall x: nat | lo <= x < at ensures x in s {
      assert forall y :: 0 <= y < |p| ==> p[y] != x;
    }
    SkipMembers(s, lo, at);
  }

  lemma OthersSize(n: nat, p: seq<nat>)
    requires Increasing(p) && forall x <- p :: x < n
    ensures |Others(n, p)| + |p| == n
  {
    KeptRank(n, p, |p|);
    CountBelowAll(Others(n, p), n);
  }

  /** Rows that are kept in order and are equal describe the change; everything else is
      deleted and inserted. */
  lemma KeptDescribes<T(!new)>(before: seq<T>, after: seq<T>, p: seq<nat>, q: seq<nat>, modified: set<nat>)
    requires Increasing(p) && Increasing(q) && |p| == |q|
    requires forall k :: 0 <= k < |p| ==> p[k] < |before| && q[k] < |after| && before[p[k]] == after[q[k]]
    ensures Describes(Changes(Others(|before|, p), Others(|after|, q), modified, []), before, after)
  {
    var c := Changes(Others(|before|, p), Others(|after|, q), modified, []);
    assert (forall x <- p :: x < |before|) && (forall x <- q :: x < |after|);
    KeptRank(|before|, p, |p|);
    KeptRank(|after|, q, |q|);
    SurviveUnique(c.deletions, c.insertions, |before|, |after|);
    forall i: nat, j: nat | i < |before| && Linked(c, i, j)
      ensures j < |after| && before[i] == after[j]
    {
      var k :| 0 <= k < |p| && p[k] == i;
      KeptRank(|before|, p, k);
      KeptRank(|after|, q, k);
      assert q[k] in q;
      SurviveUnique(c.deletions, c.insertions, i, q[k]);
    }
  }

  // ---------------------------------------------------------------------------
  // Pairing up by key

  datatype RowInfo = RowInfo(key: int, prev: Option<nat>, index: nat)

  /** One entry for every row, in order of keys. */
  ghost predicate IsRowInfo(rows: seq<int>, info: seq<RowInfo>) {
    && (forall r <- info :: r.index < |rows| && r == RowInfo(rows[r.index], None, r.index))
    && NoRepeats(info)
    && (forall x :: 0 <= x < |rows| ==> RowInfo(rows[x], None, x) in info)
    && forall x, y :: 0 <= x < y < |info| ==> info[x].key <= info[y].key
  }

  method BuildRowInfo(rows: seq<int>) returns (info: seq<RowInfo>)
    ensures IsRowInfo(rows, info)
  {
    var unsorted: seq<RowInfo> := [];
    for i := 0 to |rows|
      invariant |unsorted| == i && forall x :: 0 <= x < i ==> unsorted[x] == RowInfo(rows[x], None, x)
    {
      unsorted := unsorted + [RowInfo(rows[i], None, i)];
    }
    var rank := (r: RowInfo) => (r.key, 0);
    info := Sort(unsorted, rank);
    SameElements(unsorted, info);
    forall x, y | 0 <= x < y < |info| ensures info[x].key <= info[y].key {
      assert AtMost(rank(info[x]), rank(info[y]));
    }
  }

  /** The state of the pairing: old entries below `i` and new entries below `j` are settled.
      `from[y]` is the old entry that new entry `y` was paired with, or -1. */
  ghost predicate Pairing(olds: seq<RowInfo>, news: seq<RowInfo>, i: nat, j: nat, from: seq<int>,
                          now: seq<RowInfo>, deletions: set<nat>, insertions: set<nat>) {
    && i <= |olds| && j <= |news| && |from| == j && |now| == |news|
    && (forall y :: j <= y < |news| ==> now[y] == news[y])
    && (forall y :: 0 <= y < j ==> -1 <= from[y] < i)
    && (forall y :: 0 <= y < j && from[y] == -1 ==> now[y] == news[y])
    && (forall y :: 0 <= y < j && from[y] >= 0 ==>
          now[y] == news[y].(prev := Some(olds[from[y]].index)) && olds[from[y]].key == news[y].key)
    && (forall x, y :: 0 <= x < y < j && from[x] >= 0 && from[y] >= 0 ==> from[x] < from[y])
    && deletions == (set x | 0 <= x < i && x !in from :: olds[x].index)
    && insertions == (set y | 0 <= y < j && from[y] == -1 :: news[y].index)
  }

  /** No key is both deleted and inserted so far, nor can the settled ones meet the rest. */
  ghost predicate Separated(olds: seq<RowInfo>, news: seq<RowInfo>, i: nat, j: nat, from: seq<int>)
    requires i <= |olds| && j <= |news| && |from| == j
  {
    && (forall x, y :: 0 <= x < i && x !in from && j <= y < |news| ==> olds[x].key < news[y].key)
    && (forall x, y :: i <= x < |olds| && 0 <= y < j && from[y] == -1 ==> news[y].key < olds[x].key)
    && (forall x, y :: 0 <= x < i && x !in from && 0 <= y < j && from[y] == -1 ==> olds[x].key != news[y].key)
  }

  ghost predicate KeyOrdered(info: seq<RowInfo>) {
    forall x, y :: 0 <= x < y < |info| ==> info[x].key <= info[y].key
  }

  /** Everything that holds between two steps of the walk. */
  ghost predicate Settled(olds: seq<RowInfo>, news: seq<RowInfo>, i: nat, j: nat, from: seq<int>,
                          now: seq<RowInfo>, deletions: set<nat>, insertions: set<nat>) {
    && Pairing(olds, news, i, j, from, now, deletions, insertions)
    && Separated(olds, news, i, j, from)
    && KeyOrdered(olds) && KeyOrdered(news)
  }

  lemma SettleStart(olds: seq<RowInfo>, news: seq<RowInfo>)
    requires KeyOrdered(olds) && KeyOrdered(news)
    ensures Settled(olds, news, 0, 0, [], news, {}, {})
  {
  }

  lemma SettleHead(olds: seq<RowInfo>, news: seq<RowInfo>, i: nat, j: nat, from: seq<int>,
                   now: seq<RowInfo>, deletions: set<nat>, insertions: set<nat>)
    requires Settled(olds, news, i, j, from, now, deletions, insertions)
    ensures i <= |olds| && j <= |news| && |now| == |news| && (j < |news| ==> now[j] == news[j])
  {
  }

  lemma SettlePair(olds: seq<RowInfo>, news: seq<RowInfo>, i: nat, j: nat, from: seq<int>,
                   now: seq<RowInfo>, deletions: set<nat>, insertions: set<nat>)
    requires Settled(olds, news, i, j, from, now, deletions, insertions)
    requires i < |olds| && j < |news| && olds[i].key == news[j].key
    ensures Settled(olds, news, i + 1, j + 1, from + [i], now[j := now[j].(prev := Some(olds[i].index))], deletions,
              insertions)
  {
    PairPairing(olds, news, i, j, from, now, deletions, insertions);
    PairSeparated(olds, news, i, j, from);
  }

  lemma PairPairing(olds: seq<RowInfo>, news: seq<RowInfo>, i: nat, j: nat, from: seq<int>,
                    now: seq<RowInfo>, deletions: set<nat>, insertions: set<nat>)
    requires Pairing(olds, news, i, j, from, now, deletions, insertions)
    requires i < |olds| && j < |news| && olds[i].key == news[j].key
    ensures Pairing(olds, news, i + 1, j + 1, from + [i], now[j := now[j].(prev := Some(olds[i].index))], deletions,
              insertions)
  {
    var from' := from + [i];
    assert forall x :: x in from' <==> x in from || x == i;
  }

  lemma PairSeparated(olds: seq<RowInfo>, news: seq<RowInfo>, i: nat, j: nat, from: seq<int>)
    requires i < |olds| && j < |news| && |from| == j && Separated(olds, news, i, j, from)
    ensures Separated(olds, news, i + 1, j + 1, from + [i])
  {
    var from' := from + [i];
    assert forall x :: x in from' <==> x in from || x == i;
  }

  lemma SettleDelete(olds: seq<RowInfo>, news: seq<RowInfo>, i: nat, j: nat, from: seq<int>,
                     now: seq<RowInfo>, deletions: set<nat>, insertions: set<nat>)
    requires Settled(olds, news, i, j, from, now, deletions, insertions)
    requires i < |olds| && (j < |news| ==> olds[i].key < news[j].key)
    ensures Settled(olds, news, i + 1, j, from, now, deletions + {olds[i].index}, insertions)
  {
    assert i !in from;
  }

  lemma SettleInsert(olds: seq<RowInfo>, news: seq<RowInfo>, i: nat, j: nat, from: seq<int>,
                     now: seq<RowInfo>, deletions: set<nat>, insertions: set<nat>)
    requires Settled(olds, news, i, j, from, now, deletions, insertions)
    requires j < |news| && (i < |olds| ==> news[j].key < olds[i].key)
    ensures Settled(olds, news, i, j + 1, from + [-1], now, deletions, insertions + {news[j].index})
  {
    InsertPairing(olds, news, i, j, from, now, deletions, insertions);
    InsertSeparated(olds, news, i, j, from);
  }

  lemma InsertPairing(olds: seq<RowInfo>, news: seq<RowInfo>, i: nat, j: nat, from: seq<int>,
                      now: seq<RowInfo>, deletions: set<nat>, insertions: set<nat>)
    requires Pairing(olds, news, i, j, from, now, deletions, insertions) && j < |news|
    ensures Pairing(olds, news, i, j + 1, from + [-1], now, deletions, insertions + {news[j].index})
  {
    var from' := from + [-1];
    assert forall x: nat :: x in from' <==> x in from;
  }

  lemma InsertSeparated(olds: seq<RowInfo>, news: seq<RowInfo>, i: nat, j: nat, from: seq<int>)
    requires i <= |olds| && j < |news| && |from| == j && Separated(olds, news, i, j, from)
    requires KeyOrdered(olds) && (i < |olds| ==> news[j].key < olds[i].key)
    ensures Separated(olds, news, i, j + 1, from + [-1])
  {
    var from' := from + [-1];
    assert forall x: nat :: x in from' <==> x in from;
  }

  /** Walk both sorted sequences: equal keys are paired, the rest is deleted or inserted. */
  method Pair(olds: seq<RowInfo>, news: seq<RowInfo>)
      returns (now: seq<RowInfo>, deletions: set<nat>, insertions: set<nat>, ghost from: seq<int>)
    requires KeyOrdered(olds) && KeyOrdered(news)
    ensures Settled(olds, news, |olds|, |news|, from, now, deletions, insertions)
  {
    hide Settled, KeyOrdered;
    now, deletions, insertions, from := news, {}, {}, [];
    var i, j := 0, 0;
    SettleStart(olds, news);
    while i < |olds| && j < |news|
      invariant Settled(olds, news, i, j, from, now, deletions, insertions) && i <= |olds| && j <= |news|
      decreases |olds| - i + |news| - j
    {
      SettleHead(olds, news, i, j, from, now, deletions, insertions);
      if olds[i].key == now[j].key {
        SettlePair(olds, news, i, j, from, now, deletions, insertions);
        now := now[j := now[j].(prev := Some(olds[i].index))];
        from := from + [i];
        i, j := i + 1, j + 1;
      } else if olds[i].key < now[j].key {
        SettleDelete(olds, news, i, j, from, now, deletions, insertions);
        deletions := deletions + {olds[i].index};
        i := i + 1;
      } else {
        SettleInsert(olds, news, i, j, from, now, deletions, insertions);
        insertions := insertions + {now[j].index};
        from := from + [-1];
        j := j + 1;
      }
    }
    while i < |olds|
      invariant Settled(olds, news, i, j, from, now, deletions, insertions) && i <= |olds| && j <= |news|
      invariant i < |olds| ==> j == |news|
    {
      SettleDelete(olds, news, i, j, from, now, deletions, insertions);
      deletions := deletions + {olds[i].index};
      i := i + 1;
    }
    while j < |news|
      invariant Settled(olds, news, i, j, from, now, deletions, insertions) && i == |olds| && j <= |news|
    {
      SettleHead(olds, news, i, j, from, now, deletions, insertions);
      SettleInsert(olds, news, i, j, from, now, deletions, insertions);
      insertions := insertions + {now[j].index};
      from := from + [-1];
      j := j + 1;
    }
  }

  /** The outcome of the pairing, in terms of the two collections. */
  ghost predicate Paired(before: seq<int>, after: seq<int>, now: seq<RowInfo>) {
    && (forall r <- now :: r.index < |after| && after[r.index] == r.key)
    && (forall r <- now :: r.prev.Some? ==> r.prev.value < |before| && before[r.prev.value] == r.key)
    && (forall y, z :: 0 <= y < z < |now| ==> now[y].index != now[z].index)
    && (forall y, z :: 0 <= y < z < |now| && now[y].prev.Some? ==> now[y].prev != now[z].prev)
  }

  ghost predicate Unpaired(before: seq<int>, after: seq<int>, now: seq<RowInfo>, deletions: set<nat>,
                           insertions: set<nat>) {
    && (forall x: nat :: x in deletions <==> x < |before| && forall r <- now :: r.prev != Some(x))
    && (forall x: nat :: x in insertions <==> x < |after| && forall r <- now :: r.index == x ==> r.prev.None?)
  }

  lemma SettledPaired(before: seq<int>, after: seq<int>, olds: seq<RowInfo>, news: seq<RowInfo>, from: seq<int>,
                      now: seq<RowInfo>, deletions: set<nat>, insertions: set<nat>)
    requires IsRowInfo(before, olds) && IsRowInfo(after, news)
    requires Settled(olds, news, |olds|, |news|, from, now, deletions, insertions)
    ensures Paired(before, after, now)
  {
    forall y: nat | y < |now|
      ensures now[y].index == news[y].index && now[y].key == news[y].key
      ensures now[y].index < |after| && after[now[y].index] == now[y].key
      ensures now[y].prev.Some? ==> now[y].prev.value < |before| && before[now[y].prev.value] == now[y].key
    {
      assert news[y] in news;
      if from[y] >= 0 {
        assert olds[from[y]] in olds;
      }
    }
    forall y, z | 0 <= y < z < |now| ensures now[y].index != now[z].index {
      assert news[y] in news && news[z] in news && news[y] != news[z];
    }
    forall y, z | 0 <= y < z < |now| && now[y].prev.Some? ensures now[y].prev != now[z].prev {
      SettledFrom(before, after, olds, news, from, now, deletions, insertions, y);
      SettledFrom(before, after, olds, news, from, now, deletions, insertions, z);
      if from[z] >= 0 {
        assert olds[from[y]] in olds && olds[from[z]] in olds && olds[from[y]] != olds[from[z]];
      }
    }
  }

  lemma SettledFrom(before: seq<int>, after: seq<int>, olds: seq<RowInfo>, news: seq<RowInfo>, from: seq<int>,
                    now: seq<RowInfo>, deletions: set<nat>, insertions: set<nat>, y: nat)
    requires IsRowInfo(before, olds) && IsRowInfo(after, news) && y < |now|
    requires Settled(olds, news, |olds|, |news|, from, now, deletions, insertions)
    ensures y < |from| && -1 <= from[y] < |olds|
    ensures now[y].index == news[y].index
    ensures now[y].prev == if from[y] >= 0 then Some(olds[from[y]].index) else None
  {
    assert news[y] in news;
  }

  lemma SettledUnpaired(before: seq<int>, after: seq<int>, olds: seq<RowInfo>, news: seq<RowInfo>, from: seq<int>,
                        now: seq<RowInfo>, deletions: set<nat>, insertions: set<nat>)
    requires IsRowInfo(before, olds) && IsRowInfo(after, news)
    requires Settled(olds, news, |olds|, |news|, from, now, deletions, insertions)
    ensures Unpaired(before, after, now, deletions, insertions)
  {
    forall x: nat ensures x in deletions <==> x < |before| && forall r <- now :: r.prev != Some(x) {
      SettledDeletion(before, after, olds, news, from, now, deletions, insertions, x);
    }
    forall x: nat ensures x in insertions <==> x < |after| && forall r <- now :: r.index == x ==> r.prev.None? {
      SettledInsertion(before, after, olds, news, from, now, deletions, insertions, x);
    }
  }

  /** Every row has exactly one entry. */
  lemma EntryOf(rows: seq<int>, info: seq<RowInfo>, x: nat) returns (k: nat)
    requires IsRowInfo(rows, info) && x < |rows|
    ensures k < |info| && info[k].index == x
    ensures forall k' :: 0 <= k' < |info| && info[k'].index == x ==> k' == k
  {
    var e := RowInfo(rows[x], None, x);
    assert e in info;
    k :| 0 <= k < |info| && info[k] == e;
    forall k' | 0 <= k' < |info| && info[k'].index == x ensures k' == k {
      assert info[k'] in info;
    }
  }

  lemma SettledDeletion(before: seq<int>, after: seq<int>, olds: seq<RowInfo>, news: seq<RowInfo>, from: seq<int>,
                        now: seq<RowInfo>, deletions: set<nat>, insertions: set<nat>, x: nat)
    requires IsRowInfo(before, olds) && IsRowInfo(after, news)
    requires Settled(olds, news, |olds|, |news|, from, now, deletions, insertions)
    ensures x in deletions <==> x < |before| && forall r <- now :: r.prev != Some(x)
  {
    if x in deletions {
      var k' :| 0 <= k' < |olds| && k' !in from && olds[k'].index == x;
      assert olds[k'] in olds;
    }
    if x < |before| {
      var k := EntryOf(before, olds, x);
      assert x in deletions <==> k !in from by {
        hide Separated, KeyOrdered, IsRowInfo;
      }
      if k in from {
        var y :| 0 <= y < |from| && from[y] == k;
        SettledFrom(before, after, olds, news, from, now, deletions, insertions, y);
        assert now[y] in now;
      } else {
        forall y: nat | y < |now| ensures now[y].prev != Some(x) {
          SettledFrom(before, after, olds, news, from, now, deletions, insertions, y);
          assert from[y] >= 0 ==> from[y] in from;
        }
      }
    }
  }

  lemma SettledInsertion(before: seq<int>, after: seq<int>, olds: seq<RowInfo>, news: seq<RowInfo>, from: seq<int>,
                         now: seq<RowInfo>, deletions: set<nat>, insertions: set<nat>, x: nat)
    requires IsRowInfo(before, olds) && IsRowInfo(after, news)
    requires Settled(olds, news, |olds|, |news|, from, now, deletions, insertions)
    ensures x in insertions <==> x < |after| && forall r <- now :: r.index == x ==> r.prev.None?
  {
    if x in insertions {
      var k :| 0 <= k < |news| && from[k] == -1 && news[k].index == x;
      assert news[k] in news;
      forall r | r in now && r.index == x ensures r.prev.None? {
        var y :| 0 <= y < |now| && now[y] == r;
        SettledFrom(before, after, olds, news, from, now, deletions, insertions, y);
        assert news[y] in news && news[y] == news[k];
      }
    } else if x < |after| {
      var k :| 0 <= k < |news| && news[k] == RowInfo(after[x], None, x);
      SettledFrom(before, after, olds, news, from, now, deletions, insertions, k);
      assert now[k] in now;
    }
  }

  /** A key that is deleted somewhere is not inserted anywhere: as much as possible is paired. */
  lemma SettledSeparate(before: seq<int>, after: seq<int>, olds: seq<RowInfo>, news: seq<RowInfo>, from: seq<int>,
                        now: seq<RowInfo>, deletions: set<nat>, insertions: set<nat>, d: nat, n: nat)
    requires IsRowInfo(before, olds) && IsRowInfo(after, news)
    requires Settled(olds, news, |olds|, |news|, from, now, deletions, insertions)
    requires d in deletions && n in insertions
    ensures d < |before| && n < |after| && before[d] != after[n]
  {
    var k :| 0 <= k < |olds| && k !in from && olds[k].index == d;
    var y :| 0 <= y < |news| && from[y] == -1 && news[y].index == n;
    assert olds[k] in olds && news[y] in news;
  }

  // ---------------------------------------------------------------------------
  // The paired rows in the order of the new collection

  ghost predicate IndexOrdered(rows: seq<RowInfo>) {
    forall x, y :: 0 <= x < y < |rows| ==> rows[x].index < rows[y].index
  }

  method PairedRows(now: seq<RowInfo>) returns (rows: seq<RowInfo>)
    requires forall y, z :: 0 <= y < z < |now| ==> now[y].index != now[z].index
    ensures IndexOrdered(rows)
    ensures forall r :: r in rows <==> r in now && r.prev.Some?
  {
    var kept: seq<RowInfo> := [];
    for k := 0 to |now|
      invariant forall r :: r in kept <==> r in now[..k] && r.prev.Some?
      invariant forall y, z :: 0 <= y < z < |kept| ==> kept[y].index != kept[z].index
    {
      assert now[..k + 1] == now[..k] + [now[k]];
      if now[k].prev.Some? {
        kept := kept + [now[k]];
      }
    }
    assert now[..|now|] == now;
    var rank := (r: RowInfo) => (r.index as int, 0);
    rows := Sort(kept, rank);
    SameElements(kept, rows);
    forall x, y | 0 <= x < y < |rows| ensures rows[x].index < rows[y].index {
      assert AtMost(rank(rows[x]), rank(rows[y]));
      assert rows[x] in kept && rows[y] in kept && rows[x] != rows[y];
    }
  }

  /** The paired rows: in order of the new collection, with everything else deleted and inserted. */
  ghost predicate PairsUp(before: seq<int>, after: seq<int>, rows: seq<RowInfo>, deletions: set<nat>,
                          insertions: set<nat>) {
    && IndexOrdered(rows)
    && (forall r <- rows :: r.prev.Some? && r.prev.value < |before| && before[r.prev.value] == r.key)
    && (forall r <- rows :: r.index < |after| && after[r.index] == r.key)
    && (forall x, y :: 0 <= x < y < |rows| ==> rows[x].prev != rows[y].prev)
    && (forall x: nat :: x in deletions <==> x < |before| && forall r <- rows :: r.prev != Some(x))
    && (forall x: nat :: x in insertions <==> x < |after| && forall r <- rows :: r.index != x)
  }

  lemma PairedPairsUp(before: seq<int>, after: seq<int>, now: seq<RowInfo>, rows: seq<RowInfo>,
                      deletions: set<nat>, insertions: set<nat>)
    requires Paired(before, after, now) && Unpaired(before, after, now, deletions, insertions)
    requires IndexOrdered(rows) && forall r :: r in rows <==> r in now && r.prev.Some?
    ensures PairsUp(before, after, rows, deletions, insertions)
  {
    forall x, y | 0 <= x < y < |rows| ensures rows[x].prev != rows[y].prev {
      assert rows[x] in rows && rows[y] in rows;
      var k :| 0 <= k < |now| && now[k] == rows[x];
      var l :| 0 <= l < |now| && now[l] == rows[y];
      assert k != l;
    }
    forall x: nat ensures x in insertions <==> x < |after| && forall r <- rows :: r.index != x {
      if x in insertions {
        assert forall r <- rows :: r in now && r.prev.Some?;
      }
      if x < |after| && forall r <- rows :: r.index != x {
        forall r | r in now && r.index == x ensures r.prev.None? {
          assert r.prev.Some? ==> r in rows;
        }
      }
    }
    forall x: nat ensures x in deletions <==> x < |before| && forall r <- rows :: r.prev != Some(x) {
      if x < |before| && forall r <- rows :: r.prev != Some(x) {
        forall r | r in now ensures r.prev != Some(x) {
          assert r.prev.Some? ==> r in rows;
        }
      }
    }
  }

  /** In table order the pairing alone is the change: both collections are in order of keys,
      so paired rows cannot have changed places. */
  /** Where the paired rows are, and what they hold. */
  lemma RowAt(before: seq<int>, after: seq<int>, rows: seq<RowInfo>, d0: set<nat>, n0: set<nat>, l: nat)
    requires PairsUp(before, after, rows, d0, n0) && l < |rows|
    ensures rows[l].prev.Some? && rows[l].index < |after| && rows[l].key == after[rows[l].index]
    ensures rows[l].prev.value < |before| && rows[l].key == before[rows[l].prev.value]
  {
    assert rows[l] in rows;
  }

  lemma RowsInOrder(before: seq<int>, after: seq<int>, rows: seq<RowInfo>, d0: set<nat>, n0: set<nat>)
    requires PairsUp(before, after, rows, d0, n0)
    ensures forall x, y :: 0 <= x < y < |rows| ==> rows[x].index < rows[y].index
  {
  }

  lemma TableOrderDescribes(before: seq<int>, after: seq<int>, rows: seq<RowInfo>,
                            deletions: set<nat>, insertions: set<nat>, modified: set<nat>)
    requires PairsUp(before, after, rows, deletions, insertions)
    requires forall x, y :: 0 <= x < y < |before| ==> before[x] < before[y]
    requires forall x, y :: 0 <= x < y < |after| ==> after[x] < after[y]
    ensures Describes(Changes(deletions, insertions, modified, []), before, after)
  {
    RowsInOrder(before, after, rows, deletions, insertions);
    hide PairsUp, Describes;
    forall k | 0 <= k < |rows|
      ensures rows[k].prev.Some? && rows[k].prev.value < |before| && rows[k].index < |after|
      ensures before[rows[k].prev.value] == after[rows[k].index] == rows[k].key
    {
      RowAt(before, after, rows, deletions, insertions, k);
    }
    var p := seq(|rows|, k requires 0 <= k < |rows| => rows[k].prev.value);
    var q := seq(|rows|, k requires 0 <= k < |rows| => rows[k].index);
    forall x, y | 0 <= x < y < |rows| ensures p[x] < p[y] {
      assert after[q[x]] < after[q[y]];
      assert before[p[x]] == after[q[x]] && before[p[y]] == after[q[y]];
    }
    KeptDescribes(before, after, p, q, modified);
    OthersOfRows(before, after, rows, deletions, insertions, p, q);
  }

  lemma OthersOfRows(before: seq<int>, after: seq<int>, rows: seq<RowInfo>, deletions: set<nat>, insertions: set<nat>,
                     p: seq<nat>, q: seq<nat>)
    requires PairsUp(before, after, rows, deletions, insertions) && |p| == |q| == |rows|
    requires forall k :: 0 <= k < |rows| ==> rows[k].prev == Some(p[k]) && rows[k].index == q[k]
    ensures deletions == Others(|before|, p) && insertions == Others(|after|, q)
  {
    forall x: nat ensures x in deletions <==> x in Others(|before|, p) {
      if x in p {
        var k :| 0 <= k < |p| && p[k] == x;
        assert rows[k] in rows;
      }
      forall r | r in rows && r.prev == Some(x) ensures x in p {
        var k :| 0 <= k < |rows| && rows[k] == r;
        assert p[k] == x;
      }
    }
    forall x: nat ensures x in insertions <==> x in Others(|after|, q) {
      if x in q {
        var k :| 0 <= k < |q| && q[k] == x;
        assert rows[k] in rows;
      }
      forall r | r in rows && r.index == x ensures x in q {
        var k :| 0 <= k < |rows| && rows[k] == r;
        assert q[k] == x;
      }
    }
  }
}
