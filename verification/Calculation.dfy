/**
 Calculating a changeset from two key sequences.
 */
module Calculation {
  import opened Wrappers
  import opened Sequences
  import opened ChangeSets
  import opened Sorting
  import opened Matching
  import MissedBlocks
  import opened Diff
  import opened Alignment
  import opened KeptRows

  /** The positions of the rows that were in both results and whose key is reported as changed. */
  method ModifiedRows(rows: seq<RowInfo>, changed: int -> bool) returns (modified: set<nat>)
    ensures forall x :: x in modified <==> exists r :: r in rows && r.index == x && changed(r.key)
  {
    modified := {};
    for k := 0 to |rows|
      invariant forall x :: x in modified <==> exists y :: 0 <= y < k && rows[y].index == x && changed(rows[y].key)
    {
      if changed(rows[k].key) {
        modified := modified + {rows[k].index};
      }
    }
    forall x ensures x in modified <==> exists r :: r in rows && r.index == x && changed(r.key) {
      if x in modified {
        var y :| 0 <= y < |rows| && rows[y].index == x && changed(rows[y].key);
        assert rows[y] in rows;
      }
      forall r | r in rows && r.index == x && changed(r.key) ensures x in modified {
        var y :| 0 <= y < |rows| && rows[y] == r;
      }
    }
  }

  /** Modified are exactly the paired rows with a changed key: every row that stays in place and has one, and
      without duplicates every row that is in both results and has one. */
  ghost predicate MarksChanged(c: Changes, before: seq<int>, after: seq<int>, rows: seq<RowInfo>,
                               changed: int -> bool) {
    && (forall x :: x in c.modifications <==> exists r :: r in rows && r.index == x && changed(r.key))
    && (forall x <- c.modifications :: x < |after| && after[x] in before && changed(after[x]))
    && (forall x: nat :: x < |after| && x !in c.insertions && changed(after[x]) ==> x in c.modifications)
    && (NoRepeats(before) && NoRepeats(after) ==>
          forall x: nat :: x < |after| && after[x] in before && changed(after[x]) ==> x in c.modifications)
  }

  lemma RowsMarkChanged(before: seq<int>, after: seq<int>, rows: seq<RowInfo>, d0: set<nat>, n0: set<nat>,
                        c: Changes, changed: int -> bool)
    requires PairsUp(before, after, rows, d0, n0) && KeysApart(before, after, d0, n0) && n0 <= c.insertions
    requires forall x :: x in c.modifications <==> exists r :: r in rows && r.index == x && changed(r.key)
    ensures MarksChanged(c, before, after, rows, changed)
  {
    forall x | x in c.modifications ensures x < |after| && after[x] in before && changed(after[x]) {
      var r :| r in rows && r.index == x && changed(r.key);
      assert before[r.prev.value] == after[x];
    }
    forall x: nat | x < |after| && x !in n0 && changed(after[x]) ensures x in c.modifications {
      var r :| r in rows && r.index == x;
    }
    if NoRepeats(before) && NoRepeats(after) {
      hide PairsUp, KeysApart, NoRepeats;
      forall x: nat | x < |after| && after[x] in before && changed(after[x]) ensures x in c.modifications {
        var i :| 0 <= i < |before| && before[i] == after[x];
        DistinctArePaired(before, after, rows, d0, n0, i, x);
      }
    }
  }

  // ---------------------------------------------------------------------------
  // How much is kept

  /** The old, or the new, positions of the first `k` rows with a key. */
  ghost function PositionsOf(rows: seq<RowInfo>, key: int, k: nat, inOld: bool): set<nat>
    requires k <= |rows| && forall r <- rows :: r.prev.Some?
  {
    if k == 0 then {} else
      assert rows[k - 1] in rows;
      PositionsOf(rows, key, k - 1, inOld)
        + if rows[k - 1].key == key then {if inOld then rows[k - 1].prev.value else rows[k - 1].index} else {}
  }

  lemma {:induction false} PositionsOfAt(rows: seq<RowInfo>, key: int, k: nat, inOld: bool)
    requires k <= |rows| && forall r <- rows :: r.prev.Some?
    ensures forall x: nat :: x in PositionsOf(rows, key, k, inOld) <==>
              exists l :: 0 <= l < k && rows[l].key == key && x == if inOld then rows[l].prev.value else rows[l].index
  {
    if k > 0 {
      PositionsOfAt(rows, key, k - 1, inOld);
      assert rows[k - 1] in rows;
    }
  }

  function CountKey(rows: seq<RowInfo>, key: int, k: nat): nat
    requires k <= |rows|
  {
    if k == 0 then 0 else CountKey(rows, key, k - 1) + if rows[k - 1].key == key then 1 else 0
  }

  /** No two rows have the same place, in the old collection or in the new one. */
  ghost predicate PlacesApart(rows: seq<RowInfo>) {
    forall x, y :: 0 <= x < y < |rows| ==> rows[x].prev != rows[y].prev && rows[x].index != rows[y].index
  }

  lemma OneMorePosition(rows: seq<RowInfo>, key: int, k: nat, inOld: bool)
    requires k < |rows| && (forall r <- rows :: r.prev.Some?) && rows[k].prev.Some? && PlacesApart(rows)
    ensures (if inOld then rows[k].prev.value else rows[k].index) !in PositionsOf(rows, key, k, inOld)
  {
    hide PositionsOf;
    PositionsOfAt(rows, key, k, inOld);
    forall l | 0 <= l < k ensures rows[l].prev.Some? {
      assert rows[l] in rows;
    }
  }

  lemma NoPositions(rows: seq<RowInfo>, key: int, inOld: bool)
    requires forall r <- rows :: r.prev.Some?
    ensures PositionsOf(rows, key, 0, inOld) == {}
  {
  }

  lemma OneMoreCounted(rows: seq<RowInfo>, key: int, k: nat, inOld: bool)
    requires k < |rows| && (forall r <- rows :: r.prev.Some?) && PlacesApart(rows)
    ensures |PositionsOf(rows, key, k + 1, inOld)| ==
              |PositionsOf(rows, key, k, inOld)| + if rows[k].key == key then 1 else 0
  {
    hide PlacesApart;
    assert rows[k] in rows;
    var place := if inOld then rows[k].prev.value else rows[k].index;
    var s := PositionsOf(rows, key, k, inOld);
    OneMorePosition(rows, key, k, inOld);
    assert PositionsOf(rows, key, k + 1, inOld) == s + if rows[k].key == key then {place} else {};
  }

  lemma {:induction false} PositionsOfSize(rows: seq<RowInfo>, key: int, k: nat, inOld: bool)
    requires k <= |rows| && (forall r <- rows :: r.prev.Some?) && PlacesApart(rows)
    ensures |PositionsOf(rows, key, k, inOld)| == CountKey(rows, key, k)
  {
    hide PlacesApart, PositionsOf;
    if k == 0 {
      NoPositions(rows, key, inOld);
    } else {
      PositionsOfSize(rows, key, k - 1, inOld);
      OneMoreCounted(rows, key, k - 1, inOld);
    }
  }

  lemma AsManyOldAsNew(before: seq<int>, after: seq<int>, rows: seq<RowInfo>, d0: set<nat>, n0: set<nat>, key: int)
    requires PairsUp(before, after, rows, d0, n0)
    ensures |PositionsOf(rows, key, |rows|, true)| == |PositionsOf(rows, key, |rows|, false)|
  {
    hide PositionsOf;
    PositionsOfSize(rows, key, |rows|, true);
    PositionsOfSize(rows, key, |rows|, false);
  }

  ghost predicate KeysApart(before: seq<int>, after: seq<int>, d0: set<nat>, n0: set<nat>) {
    forall d <- d0, n <- n0 :: d < |before| && n < |after| && before[d] != after[n]
  }

  /** What was there with a key. */
  function Holding(s: seq<int>, key: int): set<nat> {
    set x: nat | x < |s| && s[x] == key
  }

  lemma PairedHold(before: seq<int>, after: seq<int>, rows: seq<RowInfo>, d0: set<nat>, n0: set<nat>, key: int)
    requires PairsUp(before, after, rows, d0, n0)
    ensures PositionsOf(rows, key, |rows|, true) == Holding(before, key) - d0
    ensures PositionsOf(rows, key, |rows|, false) == Holding(after, key) - n0
  {
    PositionsOfAt(rows, key, |rows|, true);
    PositionsOfAt(rows, key, |rows|, false);
    forall l | 0 <= l < |rows| ensures rows[l] in rows {
    }
    forall x: nat ensures x in PositionsOf(rows, key, |rows|, true) <==> x in Holding(before, key) - d0 {
      if x in Holding(before, key) && x !in d0 {
        var r :| r in rows && r.prev == Some(x);
        var l :| 0 <= l < |rows| && rows[l] == r;
      }
    }
    forall x: nat ensures x in PositionsOf(rows, key, |rows|, false) <==> x in Holding(after, key) - n0 {
      if x in Holding(after, key) && x !in n0 {
        var r :| r in rows && r.index == x;
        var l :| 0 <= l < |rows| && rows[l] == r;
      }
    }
  }

  /** Between equal sequences nothing is left unpaired, duplicates or not. */
  lemma EqualArePaired(before: seq<int>, rows: seq<RowInfo>, d0: set<nat>, n0: set<nat>)
    requires PairsUp(before, before, rows, d0, n0) && KeysApart(before, before, d0, n0)
    ensures d0 == {} && n0 == {}
  {
    hide PositionsOf;
    forall x: nat ensures x !in d0 && x !in n0 {
      if x < |before| {
        var key := before[x];
        PairedHold(before, before, rows, d0, n0, key);
        AsManyOldAsNew(before, before, rows, d0, n0, key);
        OneSideIsAll(Holding(before, key), d0, n0, before, key);
      }
    }
  }

  lemma OneSideIsAll(all: set<nat>, d0: set<nat>, n0: set<nat>, before: seq<int>, key: int)
    requires KeysApart(before, before, d0, n0) && all == Holding(before, key)
    requires |all - d0| == |all - n0|
    ensures all !! d0 && all !! n0
  {
    var d, n := all * d0, all * n0;
    assert d == {} || n == {};
    assert all - d0 == all - d && all - n0 == all - n;
    assert |all - d| == |all| - |d| && |all - n| == |all| - |n|;
  }

  lemma NewOrderIsAll(before: seq<int>, rows: seq<RowInfo>, d0: set<nat>, n0: set<nat>)
    requires PairsUp(before, before, rows, d0, n0) && n0 == {}
    ensures RowKeys(rows) == before
  {
    var at := Positions(NewRows(rows));
    forall k | 0 <= k < |rows| ensures at[k] == rows[k].index < |before| && before[rows[k].index] == rows[k].key {
      assert rows[k] in rows;
    }
    forall e: nat | e < |before| ensures e in at {
      assert e !in n0;
      var r :| r in rows && r.index == e;
      var k :| 0 <= k < |rows| && rows[k] == r;
      assert at[k] == e;
    }
    AllInOrder(at, |before|);
  }

  lemma AllInOrder(at: seq<nat>, n: nat)
    requires Increasing(at) && (forall k :: 0 <= k < |at| ==> at[k] < n) && forall e: nat :: e < n ==> e in at
    ensures |at| == n && forall k :: 0 <= k < n ==> at[k] == k
  {
    RunMembers(n);
    forall e: nat | e in at ensures e in Run(0, n) {
      var k :| 0 <= k < |at| && at[k] == e;
    }
    SameIncreasing(at, Run(0, n));
  }

  lemma OldOrderIsAll(before: seq<int>, rows: seq<RowInfo>, order: seq<Row>, d0: set<nat>, n0: set<nat>)
    requires PairsUp(before, before, rows, d0, n0) && OldOrder(rows, order) && d0 == {}
    ensures Keys(order) == before
  {
    var at := Positions(order);
    forall k | 0 <= k < |order|
      ensures at[k] == order[k].index < |before| && before[order[k].index] == order[k].key
    {
      assert order[k] in order;
      var r :| r in rows && r.key == order[k].key && r.prev == Some(order[k].index);
    }
    forall e: nat | e < |before| ensures e in at {
      assert e !in d0;
      var r :| r in rows && r.prev == Some(e);
      var k :| 0 <= k < |order| && order[k] == Row(r.key, e);
      assert at[k] == e;
    }
    AllInOrder(at, |before|);
  }

  lemma DistinctForward(before: seq<int>, after: seq<int>, rows: seq<RowInfo>, d0: set<nat>, n0: set<nat>, i: nat,
                        j: nat)
    requires PairsUp(before, after, rows, d0, n0) && i !in d0
    requires NoRepeats(after) && i < |before| && j < |after| && before[i] == after[j]
    ensures j !in n0
  {
    var r :| r in rows && r.prev == Some(i);
    assert r.index == j;
  }

  lemma DistinctBackward(before: seq<int>, after: seq<int>, rows: seq<RowInfo>, d0: set<nat>, n0: set<nat>, i: nat,
                         j: nat)
    requires PairsUp(before, after, rows, d0, n0) && j !in n0
    requires NoRepeats(before) && i < |before| && j < |after| && before[i] == after[j]
    ensures i !in d0
  {
    var r :| r in rows && r.index == j;
    assert r.prev.value == i;
  }

  /** Without duplicates, rows with the same key are paired. */
  lemma DistinctArePaired(before: seq<int>, after: seq<int>, rows: seq<RowInfo>, d0: set<nat>, n0: set<nat>, i: nat,
                          j: nat)
    requires PairsUp(before, after, rows, d0, n0) && KeysApart(before, after, d0, n0)
    requires NoRepeats(before) && NoRepeats(after) && i < |before| && j < |after| && before[i] == after[j]
    ensures i !in d0 && j !in n0
  {
    hide PairsUp, NoRepeats;
    assert i !in d0 || j !in n0;
    if i !in d0 {
      DistinctForward(before, after, rows, d0, n0, i, j);
    } else {
      DistinctBackward(before, after, rows, d0, n0, i, j);
    }
  }

  /** Increasing positions that include a run hold it in one piece. */
  lemma {:induction false} Consecutive(at: seq<nat>, from: nat, size: nat) returns (x: nat)
    requires Increasing(at) && forall e: nat :: from <= e < from + size ==> e in at
    ensures x + size <= |at| && forall y :: x <= y < x + size ==> at[y] == from + (y - x)
  {
    if size == 0 {
      x := 0;
    } else {
      var last: nat := from + size - 1;
      x := Consecutive(at, from, size - 1);
      assert last in at;
      var y :| 0 <= y < |at| && at[y] == last;
      if size == 1 {
        x := y;
      } else {
        assert at[x + size - 2] == last - 1;
        assert x + size - 1 <= y && last - 1 < at[x + size - 1] <= at[y];
      }
    }
  }

  /** Keys read through positions: a run of positions is a slice of the source. */
  lemma SliceThrough(keys: seq<int>, at: seq<nat>, source: seq<int>, x: nat, from: nat, size: nat)
    requires |keys| == |at| && x + size <= |at| && from + size <= |source|
    requires forall l :: 0 <= l < |at| ==> at[l] < |source| && keys[l] == source[at[l]]
    requires forall y :: x <= y < x + size ==> at[y] == from + (y - x)
    ensures keys[x..x + size] == source[from..from + size]
  {
  }

  /** Then a common block of the two results is one of the paired rows, too. */
  lemma BlockOfPaired(before: seq<int>, after: seq<int>, rows: seq<RowInfo>, d0: set<nat>, n0: set<nat>,
                      order: seq<Row>,
                      i: nat, j: nat, size: nat) returns (i': nat, j': nat)
    requires PairsUp(before, after, rows, d0, n0) && KeysApart(before, after, d0, n0) && OldOrder(rows, order)
    requires NoRepeats(before) && NoRepeats(after)
    requires i + size <= |before| && j + size <= |after| && Common(before, after, i, j, size)
    ensures i' + size <= |order| && j' + size <= |rows| && Common(Keys(order), RowKeys(rows), i', j', size)
  {
    hide Keys, RowKeys, NewRows, Positions, PairsUp, KeysApart, OldOrder, NoRepeats, Increasing;
    var olds, news := Positions(order), Positions(NewRows(rows));
    PositionsAt(before, after, rows, order, d0, n0);
    UnpairedAreOthers(before, after, rows, order, d0, n0);
    forall e: nat | i <= e < i + size ensures e in olds {
      assert before[i..i + size][e - i] == after[j..j + size][e - i];
      DistinctArePaired(before, after, rows, d0, n0, e, j + (e - i));
    }
    forall e: nat | j <= e < j + size ensures e in news {
      assert before[i..i + size][e - j] == after[j..j + size][e - j];
      DistinctArePaired(before, after, rows, d0, n0, i + (e - j), e);
    }
    i' := Consecutive(olds, i, size);
    j' := Consecutive(news, j, size);
    SliceThrough(Keys(order), olds, before, i', i, size);
    SliceThrough(RowKeys(rows), news, after, j', j, size);
  }

  lemma DistinctKeepLongest(before: seq<int>, after: seq<int>, rows: seq<RowInfo>, d0: set<nat>, n0: set<nat>,
                            order: seq<Row>,
                            d: set<nat>)
    requires PairsUp(before, after, rows, d0, n0) && KeysApart(before, after, d0, n0) && OldOrder(rows, order)
    requires NoRepeats(before) && NoRepeats(after) && KeepsLongest(before, d, Keys(order), RowKeys(rows))
    ensures KeepsLongest(before, d, before, after)
  {
    hide Common, PairsUp, KeysApart, OldOrder, NoRepeats, Keys, RowKeys;
    forall i: nat, j: nat, size: nat | i + size <= |before| && j + size <= |after| && Common(before, after, i, j, size)
      ensures size + |d| <= |before|
    {
      SameLength(rows, order);
      var i', j' := BlockOfPaired(before, after, rows, d0, n0, order, i, j, size);
    }
  }

  /** How a change came about: what is paired, what is left over, the paired rows in the old order, and the
      search that decided which of them stay. */
  datatype Trace = Trace(rows: seq<RowInfo>, deletions: set<nat>, insertions: set<nat>, order: seq<Row>, w: Window,
                         t: Search)

  /** Rows are paired by key as far as they can be.  What is left over is deleted or inserted, and of the rest all
      but the common prefix and the blocks of the search, unless it is in table order. */
  ghost predicate Explains(trace: Trace, before: seq<int>, after: seq<int>, inTableOrder: bool, c: Changes) {
    && PairsUp(before, after, trace.rows, trace.deletions, trace.insertions)
    && KeysApart(before, after, trace.deletions, trace.insertions)
    && if inTableOrder then c.deletions == trace.deletions && c.insertions == trace.insertions
       else
         && OldOrder(trace.rows, trace.order)
         && KeepsBlocks(before, after, trace.rows, trace.order, trace.w, trace.t, c.deletions, c.insertions)
  }

  /** Without duplicates, what stays and what could have stayed, in terms of the two results. */
  ghost predicate StaysAsSearched(before: seq<int>, after: seq<int>, w: Window, t: Search, c: Changes) {
    var a, b := Shared(before, after), Shared(after, before);
    && SearchedRest(a, b, w, t)
    && StayByRank(before, after, w.begin1, Found(t), true, c.deletions)
    && StayByRank(after, before, w.begin1, Found(t), false, c.insertions)
    && (NothingElseCouldStay(before, after, c) <==>
        forall s <- MissedBlocks.Skipped(w, t) :: !MissedBlocks.HasPair(a, b, s))
    && (OnlyForward(before, after, c) ==> NothingElseCouldStay(before, after, c))
  }

  /** Without duplicates the paired rows are those in both results. */
  lemma PairedAreShared(before: seq<int>, after: seq<int>, rows: seq<RowInfo>, d0: set<nat>, n0: set<nat>,
                        order: seq<Row>)
    requires PairsUp(before, after, rows, d0, n0) && KeysApart(before, after, d0, n0) && OldOrder(rows, order)
    requires NoRepeats(before) && NoRepeats(after)
    ensures SharedAt(before, after, Positions(order), Keys(order))
    ensures SharedAt(after, before, Positions(NewRows(rows)), RowKeys(rows))
  {
    hide PairsUp, KeysApart, OldOrder, NoRepeats, Increasing, Positions, NewRows, Keys, RowKeys;
    var olds, news := Positions(order), Positions(NewRows(rows));
    PositionsAt(before, after, rows, order, d0, n0);
    UnpairedAreOthers(before, after, rows, order, d0, n0);
    forall x: nat | x < |before| && before[x] in after ensures x in olds {
      var j :| 0 <= j < |after| && after[j] == before[x];
      DistinctArePaired(before, after, rows, d0, n0, x, j);
    }
    forall x: nat | x < |after| && after[x] in before ensures x in news {
      var i :| 0 <= i < |before| && before[i] == after[x];
      DistinctArePaired(before, after, rows, d0, n0, i, x);
    }
    PairedKeysShared(before, after, rows, d0, n0, order);
  }

  lemma PairedKeysShared(before: seq<int>, after: seq<int>, rows: seq<RowInfo>, d0: set<nat>, n0: set<nat>,
                         order: seq<Row>)
    requires PairsUp(before, after, rows, d0, n0) && OldOrder(rows, order)
    ensures forall l :: 0 <= l < |order| ==> Keys(order)[l] in after
    ensures forall l :: 0 <= l < |rows| ==> RowKeys(rows)[l] in before
  {
    hide PairsUp;
    forall l | 0 <= l < |rows| ensures RowKeys(rows)[l] in before && RowKeys(rows)[l] in after {
      RowAt(before, after, rows, d0, n0, l);
    }
    OldKeysKnown(rows, order);
    forall l | 0 <= l < |order| ensures Keys(order)[l] in after {
      assert order[l] in order;
      var k :| 0 <= k < |rows| && RowKeys(rows)[k] == order[l].key;
    }
  }

  lemma SearchedWithoutRepeats(before: seq<int>, after: seq<int>, trace: Trace, c: Changes)
    requires Explains(trace, before, after, false, c) && NoRepeats(before) && NoRepeats(after)
    ensures StaysAsSearched(before, after, trace.w, trace.t, c)
  {
    hide PairsUp, KeysApart, OldOrder, NoRepeats, Positions, NewRows, Keys, RowKeys, SharedAt, SearchedRest,
         AllButStaying, StayByRank, NothingElseCouldStay, OnlyForward, Shared;
    var rows, order, w, t := trace.rows, trace.order, trace.w, trace.t;
    var olds, news, a, b := Positions(order), Positions(NewRows(rows)), Keys(order), RowKeys(rows);
    PairedAreShared(before, after, rows, trace.deletions, trace.insertions, order);
    SharedIs(before, after, olds, a);
    SharedIs(after, before, news, b);
    StaysByRank(before, after, olds, a, w.begin1, Found(t), true, c.deletions);
    StaysByRank(after, before, news, b, w.begin1, Found(t), false, c.insertions);
    NothingElseIff(before, after, olds, news, a, b, w, t, c);
    if OnlyForward(before, after, c) {
      ForwardSuffices(before, after, olds, news, a, b, w, t, c);
    }
  }

  /** The change between two results: for all key sequences, duplicates included, unless the
      caller says that both are in table order, in which case their keys must be increasing.
      Equal results give no change, and without duplicates at least as many rows stay as the longest
      common block has, and nothing else could stay exactly if the search has skipped nothing. */
  method Calculate(before: seq<int>, after: seq<int>, changed: int -> bool, inTableOrder: bool,
                   weight: (int, int) -> int)
      returns (c: Changes, ghost trace: Trace)
    ensures !inTableOrder || (Increasing(before) && Increasing(after)) ==> Describes(c, before, after)
    ensures c.moves == [] && MarksChanged(c, before, after, trace.rows, changed)
    ensures before == after ==> c.deletions == {} && c.insertions == {}
    ensures Explains(trace, before, after, inTableOrder, c)
    ensures !inTableOrder && NoRepeats(before) && NoRepeats(after) ==>
              && KeepsLongest(before, c.deletions, before, after)
              && StaysAsSearched(before, after, trace.w, trace.t, c)
    ensures inTableOrder ==> KeysApart(before, after, c.deletions, c.insertions)
  {
    hide Describes, PairsUp, OldOrder, KeepsLongest, MarksChanged, NoRepeats, Keys, RowKeys, KeysApart, KeepsBlocks,
         StaysAsSearched, Increasing;
    var rows, deletions, insertions := PairUp(before, after);
    var modified := ModifiedRows(rows, changed);
    var d, n := deletions, insertions;
    if before == after {
      EqualArePaired(before, rows, deletions, insertions);
    }
    ghost var order: seq<Row>, w, t := [], Window(0, 0, 0, 0), Ended;
    if !inTableOrder {
      d, n, order, w, t := CalculateMovesSorted(before, after, rows, deletions, insertions, weight);
      if before == after {
        NewOrderIsAll(before, rows, deletions, insertions);
        OldOrderIsAll(before, rows, order, deletions, insertions);
      }
      if NoRepeats(before) && NoRepeats(after) {
        DistinctKeepLongest(before, after, rows, deletions, insertions, order, d);
      }
    } else if Increasing(before) && Increasing(after) {
      InTableOrder(before, after, rows, deletions, insertions, modified);
    }
    c := Changes(d, n, modified, []);
    trace := Trace(rows, deletions, insertions, order, w, t);
    RowsMarkChanged(before, after, rows, deletions, insertions, c, changed);
    if !inTableOrder && NoRepeats(before) && NoRepeats(after) {
      SearchedWithoutRepeats(before, after, trace, c);
    }
  }

  lemma InTableOrder(before: seq<int>, after: seq<int>, rows: seq<RowInfo>, d0: set<nat>, n0: set<nat>,
                     modified: set<nat>)
    requires PairsUp(before, after, rows, d0, n0) && Increasing(before) && Increasing(after)
    ensures Describes(Changes(d0, n0, modified, []), before, after)
  {
    hide PairsUp, Describes;
    TableOrderDescribes(before, after, rows, d0, n0, modified);
  }

  /** Pair rows by key; what is left over is deleted or inserted. */
  method PairUp(before: seq<int>, after: seq<int>)
    returns (rows: seq<RowInfo>, deletions: set<nat>, insertions: set<nat>)
    ensures PairsUp(before, after, rows, deletions, insertions) && KeysApart(before, after, deletions, insertions)
  {
    var olds := BuildRowInfo(before);
    var news := BuildRowInfo(after);
    ghost var from;
    var now;
    now, deletions, insertions, from := Pair(olds, news);
    SettledPaired(before, after, olds, news, from, now, deletions, insertions);
    SettledUnpaired(before, after, olds, news, from, now, deletions, insertions);
    forall d, n | d in deletions && n in insertions
      ensures d < |before| && n < |after| && before[d] != after[n]
    {
      SettledSeparate(before, after, olds, news, from, now, deletions, insertions, d, n);
    }
    rows := PairedRows(now);
    PairedPairsUp(before, after, now, rows, deletions, insertions);
  }
}
