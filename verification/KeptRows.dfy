/**
 Which rows stay in place: those of the common prefix and of the blocks of a search.  Without
 duplicates that is a statement about the two results and the change alone.
 */
module KeptRows {
  import opened Sequences
  import opened ChangeSets
  import opened Sorting
  import opened Matching
  import opened MissedBlocks

  // ---------------------------------------------------------------------------
  // In the paired rows

  ghost predicate InBlock(found: seq<Match>, inOld: bool, l: nat) {
    exists m <- found :: if inOld then m.i <= l < m.i + m.size else m.j <= l < m.j + m.size
  }

  /** The entry is in the common prefix or in a block. */
  ghost predicate Stays(first: nat, found: seq<Match>, inOld: bool, l: nat) {
    l < first || InBlock(found, inOld, l)
  }

  /** The search is one of everything beyond the longest common prefix. */
  ghost predicate SearchedRest(a: seq<int>, b: seq<int>, w: Window, t: Search) {
    var first, n := w.begin1, |a|;
    && |b| == n && first <= n && w == Window(first, n, first, n)
    && (forall l :: 0 <= l < first ==> a[l] == b[l])
    && (first < n ==> a[first] != b[first])
    && IsSearch(a, b, w, t)
  }

  /** All positions below `size` but those of the entries that stay. */
  ghost predicate AllButStaying(size: nat, at: seq<nat>, first: nat, found: seq<Match>, inOld: bool, s: set<nat>) {
    forall x: nat :: x in s <==>
      x < size && forall l :: 0 <= l < |at| && Stays(first, found, inOld, l) ==> at[l] != x
  }

  /** Both entries of a common key stay, or neither does. */
  ghost predicate BothStay(a: seq<int>, b: seq<int>, first: nat, found: seq<Match>, u: nat, v: nat) {
    u < |a| && v < |b| && a[u] == b[v] && Stays(first, found, true, u) && Stays(first, found, false, v)
  }

  ghost predicate NeitherStays(a: seq<int>, b: seq<int>, first: nat, found: seq<Match>, u: nat, v: nat) {
    u < |a| && v < |b| && a[u] == b[v] && !Stays(first, found, true, u) && !Stays(first, found, false, v)
  }

  predicate InOrder(i: nat, j: nat, k: nat, l: nat) {
    (i < k && j < l) || (k < i && l < j)
  }

  /** Whatever does not stay is out of order with something that does. */
  ghost predicate NoneToAdd(a: seq<int>, b: seq<int>, first: nat, found: seq<Match>) {
    forall x: nat, y: nat :: NeitherStays(a, b, first, found, x, y) ==>
      exists u: nat, v: nat :: BothStay(a, b, first, found, u, v) && !InOrder(x, y, u, v)
  }

  /** The keys of a block are common keys that stay. */
  lemma BlockStays(a: seq<int>, b: seq<int>, w: Window, found: seq<Match>, m: Match, k: nat)
    requires w.Fits(a, b) && Chain(a, b, w, found) && m in found && k < m.size
    ensures BothStay(a, b, w.begin1, found, m.i + k, m.j + k)
  {
    assert a[m.i..m.i + m.size][k] == b[m.j..m.j + m.size][k];
  }

  /** Without duplicates, two entries of the same key that stay are in the prefix or in one block. */
  lemma StaysTogether(a: seq<int>, b: seq<int>, w: Window, t: Search, u: nat, v: nat)
    requires SearchedRest(a, b, w, t) && NoRepeats(b) && BothStay(a, b, w.begin1, Found(t), u, v)
    ensures (u < w.begin1 && v == u) || exists m <- Found(t) :: m.i <= u < m.i + m.size && v - m.j == u - m.i
  {
    hide IsSearch, Chain;
    if u < w.begin1 {
      assert b[u] == b[v];
    } else {
      SearchIsChain(a, b, w, t);
      var m :| m in Found(t) && m.i <= u < m.i + m.size;
      var k := u - m.i;
      BlockStays(a, b, w, Found(t), m, k);
      assert b[m.j + k] == b[v];
      assert v - m.j == u - m.i;
    }
  }

  /** A pair that could stay with all blocks is in order with everything that does. */
  lemma InOrderWithAll(a: seq<int>, b: seq<int>, w: Window, t: Search, x: nat, y: nat, u: nat, v: nat)
    requires SearchedRest(a, b, w, t) && NoRepeats(b) && BothStay(a, b, w.begin1, Found(t), u, v)
    requires w.begin1 <= x && w.begin1 <= y && CouldStay(Found(t), x, y)
    ensures InOrder(x, y, u, v)
  {
    hide SearchedRest, BothStay, NoRepeats;
    StaysTogether(a, b, w, t, u, v);
  }

  lemma MaximalThenNone(a: seq<int>, b: seq<int>, w: Window, t: Search, x: nat, y: nat)
    requires SearchedRest(a, b, w, t) && Maximal(a, b, w, Found(t)) && NeitherStays(a, b, w.begin1, Found(t), x, y)
    ensures exists u: nat, v: nat :: BothStay(a, b, w.begin1, Found(t), u, v) && !InOrder(x, y, u, v)
  {
    hide IsSearch, Maximal, BothStay, NeitherStays, Pair, Stays, Chain;
    OutOfBlocks(a, b, w, Found(t), x, y);
    MaximalAt(a, b, w, Found(t), x, y);
    var m :| m in Found(t) && !InOrderWith(m, x, y);
    SearchIsChain(a, b, w, t);
    PositiveSize(a, b, w, Found(t), m);
    BlockStays(a, b, w, Found(t), m, 0);
    assert BothStay(a, b, w.begin1, Found(t), m.i, m.j) && !InOrder(x, y, m.i, m.j);
  }

  lemma PositiveSize(a: seq<int>, b: seq<int>, w: Window, found: seq<Match>, m: Match)
    requires w.Fits(a, b) && Chain(a, b, w, found) && m in found
    ensures m.size > 0
  {
  }

  lemma OutOfBlocks(a: seq<int>, b: seq<int>, w: Window, found: seq<Match>, x: nat, y: nat)
    requires NeitherStays(a, b, w.begin1, found, x, y) && |a| == |b| && w == Window(w.begin1, |a|, w.begin1, |a|)
    ensures Pair(a, b, w, x, y)
    ensures forall m <- found :: !(m.i <= x < m.i + m.size) && !(m.j <= y < m.j + m.size)
  {
  }

  lemma MaximalAt(a: seq<int>, b: seq<int>, w: Window, found: seq<Match>, x: nat, y: nat)
    requires Maximal(a, b, w, found) && Pair(a, b, w, x, y)
    ensures !CouldStay(found, x, y)
  {
  }

  lemma NoneThenMaximal(a: seq<int>, b: seq<int>, w: Window, t: Search, x: nat, y: nat)
    requires SearchedRest(a, b, w, t) && NoRepeats(b) && NoneToAdd(a, b, w.begin1, Found(t)) && Pair(a, b, w, x, y)
    ensures !CouldStay(Found(t), x, y)
  {
    hide IsSearch, BothStay;
    if CouldStay(Found(t), x, y) {
      assert NeitherStays(a, b, w.begin1, Found(t), x, y);
      var u: nat, v: nat :| BothStay(a, b, w.begin1, Found(t), u, v) && !InOrder(x, y, u, v);
      InOrderWithAll(a, b, w, t, x, y, u, v);
    }
  }

  /** Without duplicates, nothing could be added to the blocks if and only if no entry that does not
      stay is in order with all that do. */
  lemma MaximalMeans(a: seq<int>, b: seq<int>, w: Window, t: Search)
    requires SearchedRest(a, b, w, t) && NoRepeats(b)
    ensures Maximal(a, b, w, Found(t)) <==> NoneToAdd(a, b, w.begin1, Found(t))
  {
    hide SearchedRest, NeitherStays, BothStay, CouldStay, Pair;
    if Maximal(a, b, w, Found(t)) {
      forall x: nat, y: nat | NeitherStays(a, b, w.begin1, Found(t), x, y)
        ensures exists u: nat, v: nat :: BothStay(a, b, w.begin1, Found(t), u, v) && !InOrder(x, y, u, v)
      {
        MaximalThenNone(a, b, w, t, x, y);
      }
    }
    if NoneToAdd(a, b, w.begin1, Found(t)) {
      forall x: nat, y: nat | Pair(a, b, w, x, y) ensures !CouldStay(Found(t), x, y) {
        NoneThenMaximal(a, b, w, t, x, y);
      }
    }
  }

  // ---------------------------------------------------------------------------
  // In the two results

  /** The rows of `s` that are in `t`, too. */
  function Shared(s: seq<int>, t: seq<int>): seq<int> {
    if s == [] then [] else
      var last := |s| - 1;
      Shared(s[..last], t) + if s[last] in t then [s[last]] else []
  }

  /** `at` are the positions of the rows of `s` that are in `t`, too, and `keys` are those rows. */
  ghost predicate SharedAt(s: seq<int>, t: seq<int>, at: seq<nat>, keys: seq<int>) {
    && Increasing(at) && |keys| == |at|
    && (forall l :: 0 <= l < |at| ==> at[l] < |s| && keys[l] == s[at[l]] && s[at[l]] in t)
    && forall x: nat :: x < |s| && s[x] in t ==> x in at
  }

  lemma SharedButTheLast(s: seq<int>, t: seq<int>, at: seq<nat>, keys: seq<int>)
    requires SharedAt(s, t, at, keys) && s != []
    ensures |keys| == |at|
    ensures var last, n := |s| - 1, |at| - 1;
            if s[last] in t then
              && n >= 0 && at[n] == last && keys == keys[..n] + [s[last]]
              && SharedAt(s[..last], t, at[..n], keys[..n])
            else
              SharedAt(s[..last], t, at, keys)
  {
    var last, n := |s| - 1, |at| - 1;
    if s[last] in t {
      GreatestIsLast(at, last);
      hide Increasing;
      forall x: nat | x < last && s[x] in t ensures x in at[..n] {
        var z :| 0 <= z < |at| && at[z] == x;
        assert at[..n][z] == x;
      }
    }
  }

  lemma GreatestIsLast(at: seq<nat>, last: nat)
    requires Increasing(at) && last in at && forall l :: 0 <= l < |at| ==> at[l] <= last
    ensures var n := |at| - 1;
            at[n] == last && Increasing(at[..n]) && forall l :: 0 <= l < n ==> at[l] < last
  {
    var n := |at| - 1;
    var y :| 0 <= y < |at| && at[y] == last;
    assert at[y] <= at[n];
  }

  lemma {:induction false} SharedIs(s: seq<int>, t: seq<int>, at: seq<nat>, keys: seq<int>)
    requires SharedAt(s, t, at, keys)
    ensures keys == Shared(s, t)
    decreases |s|
  {
    hide SharedAt;
    if s == [] {
      NoneShared(t, at, keys);
    } else {
      SharedButTheLast(s, t, at, keys);
      var last, n := |s| - 1, |at| - 1;
      if s[last] in t {
        SharedIs(s[..last], t, at[..n], keys[..n]);
      } else {
        SharedIs(s[..last], t, at, keys);
      }
    }
  }

  lemma NoneShared(t: seq<int>, at: seq<nat>, keys: seq<int>)
    requires SharedAt([], t, at, keys)
    ensures keys == []
  {
    if at != [] {
      SomeShared([], t, at, keys);
    }
  }

  lemma SomeShared(s: seq<int>, t: seq<int>, at: seq<nat>, keys: seq<int>)
    requires SharedAt(s, t, at, keys) && at != []
    ensures s != []
  {
    assert at[0] < |s|;
  }

  /** So many of the rows before it are shared. */
  lemma SharedBefore(s: seq<int>, t: seq<int>, at: seq<nat>, keys: seq<int>, l: nat)
    requires SharedAt(s, t, at, keys) && l < |at|
    ensures |Shared(s[..at[l]], t)| == l
  {
    var x := at[l];
    forall y: nat | y < x && s[y] in t ensures y in at[..l] {
      var z :| 0 <= z < |at| && at[z] == y;
      assert at[..l][z] == y;
    }
    SharedIs(s[..x], t, at[..l], keys[..l]);
  }

  /** A row that stays, and one that is deleted and inserted again. */
  ghost predicate InPlace(before: seq<int>, after: seq<int>, c: Changes, k: nat, l: nat) {
    k < |before| && l < |after| && before[k] == after[l] && k !in c.deletions && l !in c.insertions
  }

  ghost predicate Reinserted(before: seq<int>, after: seq<int>, c: Changes, i: nat, j: nat) {
    i < |before| && j < |after| && before[i] == after[j] && i in c.deletions && j in c.insertions
  }

  /** Every row that is deleted and inserted again is out of order with one that stays. */
  ghost predicate NothingElseCouldStay(before: seq<int>, after: seq<int>, c: Changes) {
    forall i: nat, j: nat :: Reinserted(before, after, c, i, j) ==>
      exists k: nat, l: nat :: InPlace(before, after, c, k, l) && !InOrder(i, j, k, l)
  }

  /** Of the rows in both results, no more come before a row that stays in the old one than in the new one. */
  ghost predicate OnlyForward(before: seq<int>, after: seq<int>, c: Changes) {
    forall k: nat, l: nat :: InPlace(before, after, c, k, l) ==>
      |Shared(before[..k], after)| <= |Shared(after[..l], before)|
  }

  /** The rows that stay are those in both results that come in the common prefix or in a block of them. */
  ghost predicate StayByRank(s: seq<int>, t: seq<int>, first: nat, found: seq<Match>, inOld: bool, removed: set<nat>) {
    forall x: nat :: x in removed <==>
      x < |s| && !(s[x] in t && Stays(first, found, inOld, |Shared(s[..x], t)|))
  }

  lemma StaysByRank(s: seq<int>, t: seq<int>, at: seq<nat>, keys: seq<int>, first: nat, found: seq<Match>, inOld: bool,
                    removed: set<nat>)
    requires SharedAt(s, t, at, keys) && AllButStaying(|s|, at, first, found, inOld, removed)
    ensures StayByRank(s, t, first, found, inOld, removed)
  {
    hide Shared, Stays;
    forall x: nat
      ensures x in removed <==> x < |s| && !(s[x] in t && Stays(first, found, inOld, |Shared(s[..x], t)|))
    {
      if x < |s| && s[x] in t {
        var l :| 0 <= l < |at| && at[l] == x;
        SharedBefore(s, t, at, keys, l);
      }
    }
  }

  /** Everything that is needed of two results without duplicates, their shared rows and the change. */
  ghost predicate Distinct(before: seq<int>, after: seq<int>, olds: seq<nat>, news: seq<nat>, a: seq<int>, b: seq<int>,
                           w: Window, t: Search, c: Changes) {
    && NoRepeats(before) && NoRepeats(after)
    && SharedAt(before, after, olds, a) && SharedAt(after, before, news, b) && SearchedRest(a, b, w, t)
    && AllButStaying(|before|, olds, w.begin1, Found(t), true, c.deletions)
    && AllButStaying(|after|, news, w.begin1, Found(t), false, c.insertions)
  }

  lemma KeysDiffer(s: seq<int>, t: seq<int>, at: seq<nat>, keys: seq<int>)
    requires SharedAt(s, t, at, keys) && NoRepeats(s)
    ensures NoRepeats(keys)
  {
  }

  lemma RankDecides(s: seq<int>, t: seq<int>, at: seq<nat>, keys: seq<int>, first: nat, found: seq<Match>, inOld: bool,
                    removed: set<nat>, l: nat)
    requires SharedAt(s, t, at, keys) && AllButStaying(|s|, at, first, found, inOld, removed) && l < |at|
    ensures at[l] in removed <==> !Stays(first, found, inOld, l)
  {
    hide Stays;
    forall k | 0 <= k < |at| && at[k] == at[l] ensures k == l {
    }
  }

  /** A row in both results, as an entry of the shared rows. */
  lemma AsEntries(before: seq<int>, after: seq<int>, olds: seq<nat>, news: seq<nat>, a: seq<int>, b: seq<int>,
                  w: Window, t: Search, c: Changes, i: nat, j: nat) returns (x: nat, y: nat)
    requires Distinct(before, after, olds, news, a, b, w, t, c)
    requires i < |before| && j < |after| && before[i] == after[j]
    ensures x < |a| == |olds| && y < |b| == |news| && olds[x] == i && news[y] == j && a[x] == b[y]
    ensures Reinserted(before, after, c, i, j) <==> NeitherStays(a, b, w.begin1, Found(t), x, y)
    ensures InPlace(before, after, c, i, j) <==> BothStay(a, b, w.begin1, Found(t), x, y)
  {
    hide Stays, SearchedRest, AllButStaying, NoRepeats, Increasing;
    x :| 0 <= x < |olds| && olds[x] == i;
    y :| 0 <= y < |news| && news[y] == j;
    RankDecides(before, after, olds, a, w.begin1, Found(t), true, c.deletions, x);
    RankDecides(after, before, news, b, w.begin1, Found(t), false, c.insertions, y);
  }

  lemma AsRows(before: seq<int>, after: seq<int>, olds: seq<nat>, news: seq<nat>, a: seq<int>, b: seq<int>,
               w: Window, t: Search, c: Changes, x: nat, y: nat)
    requires Distinct(before, after, olds, news, a, b, w, t, c) && x < |a| && y < |b| && a[x] == b[y]
    ensures x < |olds| && y < |news|
    ensures Reinserted(before, after, c, olds[x], news[y]) <==> NeitherStays(a, b, w.begin1, Found(t), x, y)
    ensures InPlace(before, after, c, olds[x], news[y]) <==> BothStay(a, b, w.begin1, Found(t), x, y)
  {
    hide Stays, SearchedRest, AllButStaying, NoRepeats, Increasing;
    RankDecides(before, after, olds, a, w.begin1, Found(t), true, c.deletions, x);
    RankDecides(after, before, news, b, w.begin1, Found(t), false, c.insertions, y);
  }

  /** Positions are in the order of the entries. */
  lemma SameOrder(at: seq<nat>, x: nat, u: nat)
    requires Increasing(at) && x < |at| && u < |at|
    ensures at[x] < at[u] <==> x < u
  {
  }

  lemma SameOrders(before: seq<int>, after: seq<int>, olds: seq<nat>, news: seq<nat>, a: seq<int>, b: seq<int>,
                   w: Window, t: Search, c: Changes, x: nat, y: nat, u: nat, v: nat)
    requires Distinct(before, after, olds, news, a, b, w, t, c) && x < |a| && y < |b| && u < |a| && v < |b|
    ensures |olds| == |a| && |news| == |b|
    ensures InOrder(olds[x], news[y], olds[u], news[v]) <==> InOrder(x, y, u, v)
  {
    hide Increasing, SearchedRest, AllButStaying, NoRepeats;
    SameOrder(olds, x, u);
    SameOrder(olds, u, x);
    SameOrder(news, y, v);
    SameOrder(news, v, y);
  }

  lemma NoneToAddMeans(before: seq<int>, after: seq<int>, olds: seq<nat>, news: seq<nat>, a: seq<int>, b: seq<int>,
                       w: Window, t: Search, c: Changes)
    requires Distinct(before, after, olds, news, a, b, w, t, c)
    ensures NothingElseCouldStay(before, after, c) <==> NoneToAdd(a, b, w.begin1, Found(t))
  {
    hide Distinct, NeitherStays, BothStay, Reinserted, InPlace, InOrder;
    if NoneToAdd(a, b, w.begin1, Found(t)) {
      forall i: nat, j: nat | Reinserted(before, after, c, i, j)
        ensures exists k: nat, l: nat :: InPlace(before, after, c, k, l) && !InOrder(i, j, k, l)
      {
        ReinsertedSame(before, after, c, i, j);
        var x, y := AsEntries(before, after, olds, news, a, b, w, t, c, i, j);
        var u: nat, v: nat :| BothStay(a, b, w.begin1, Found(t), u, v) && !InOrder(x, y, u, v);
        StaysSame(a, b, w.begin1, Found(t), u, v);
        AsRows(before, after, olds, news, a, b, w, t, c, u, v);
        SameOrders(before, after, olds, news, a, b, w, t, c, x, y, u, v);
      }
    }
    if NothingElseCouldStay(before, after, c) {
      forall x: nat, y: nat | NeitherStays(a, b, w.begin1, Found(t), x, y)
        ensures exists u: nat, v: nat :: BothStay(a, b, w.begin1, Found(t), u, v) && !InOrder(x, y, u, v)
      {
        NeitherSame(a, b, w.begin1, Found(t), x, y);
        AsRows(before, after, olds, news, a, b, w, t, c, x, y);
        var k: nat, l: nat :| InPlace(before, after, c, k, l) && !InOrder(olds[x], news[y], k, l);
        InPlaceSame(before, after, c, k, l);
        var u, v := AsEntries(before, after, olds, news, a, b, w, t, c, k, l);
        SameOrders(before, after, olds, news, a, b, w, t, c, x, y, u, v);
      }
    }
  }

  lemma ReinsertedSame(before: seq<int>, after: seq<int>, c: Changes, i: nat, j: nat)
    requires Reinserted(before, after, c, i, j)
    ensures i < |before| && j < |after| && before[i] == after[j]
  {
  }

  lemma InPlaceSame(before: seq<int>, after: seq<int>, c: Changes, i: nat, j: nat)
    requires InPlace(before, after, c, i, j)
    ensures i < |before| && j < |after| && before[i] == after[j]
  {
  }

  lemma StaysSame(a: seq<int>, b: seq<int>, first: nat, found: seq<Match>, u: nat, v: nat)
    requires BothStay(a, b, first, found, u, v)
    ensures u < |a| && v < |b| && a[u] == b[v]
  {
  }

  lemma NeitherSame(a: seq<int>, b: seq<int>, first: nat, found: seq<Match>, u: nat, v: nat)
    requires NeitherStays(a, b, first, found, u, v)
    ensures u < |a| && v < |b| && a[u] == b[v]
  {
  }

  /** Without duplicates: nothing else could stay exactly if no window that was skipped has a common row. */
  lemma NothingElseIff(before: seq<int>, after: seq<int>, olds: seq<nat>, news: seq<nat>, a: seq<int>, b: seq<int>,
                       w: Window, t: Search, c: Changes)
    requires Distinct(before, after, olds, news, a, b, w, t, c)
    ensures NothingElseCouldStay(before, after, c) <==> forall s <- Skipped(w, t) :: !HasPair(a, b, s)
  {
    hide SharedAt, AllButStaying, NoRepeats, Maximal, NoneToAdd, HasPair, NothingElseCouldStay;
    KeysDiffer(after, before, news, b);
    NoneToAddMeans(before, after, olds, news, a, b, w, t, c);
    MaximalMeans(a, b, w, t);
    MaximalIff(a, b, w, t);
  }

  /** A guard on the result: as long as no row that stays has come forward, nothing else could stay. */
  lemma ForwardSuffices(before: seq<int>, after: seq<int>, olds: seq<nat>, news: seq<nat>, a: seq<int>, b: seq<int>,
                        w: Window, t: Search, c: Changes)
    requires Distinct(before, after, olds, news, a, b, w, t, c) && OnlyForward(before, after, c)
    ensures NothingElseCouldStay(before, after, c)
  {
    hide AllButStaying, NoRepeats, Maximal, NoneToAdd, HasPair, NothingElseCouldStay, InPlace, BothStay, Shared,
         IsSearch;
    SearchIsChain(a, b, w, t);
    forall m | m in Found(t) ensures m.i <= m.j {
      BlockStays(a, b, w, Found(t), m, 0);
      StaysSame(a, b, w.begin1, Found(t), m.i, m.j);
      AsRows(before, after, olds, news, a, b, w, t, c, m.i, m.j);
      SharedBefore(before, after, olds, a, m.i);
      SharedBefore(after, before, news, b, m.j);
    }
    ForwardIsMaximal(a, b, w, t);
    KeysDiffer(after, before, news, b);
    MaximalMeans(a, b, w, t);
    NoneToAddMeans(before, after, olds, news, a, b, w, t, c);
  }
}
