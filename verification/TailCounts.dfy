/**
 When adding indices to a set leaves its cached counts exact.

 The ranges of a set are determined by the set, and chunks are filled one after another, so that
 the chunks of the result, and which ranges they begin with, follow from the sets alone.
 */
module TailCounts {
  import opened IndexAlgebra
  import opened IndexRanges
  import opened RangeEdits
  import opened BulkEdits
  import opened IndexBuilding
  import opened Sequences

  // ---------------------------------------------------------------------------
  // The ranges of a set

  lemma FirstIsLeast(rs: seq<Range>)
    requires Sorted(rs) && rs != []
    ensures rs[0].first < rs[0].second
    ensures rs[0].first in Indices(rs) && forall x <- Indices(rs) :: x >= rs[0].first
    ensures rs[0].second !in Indices(rs) && forall x :: rs[0].first <= x < rs[0].second ==> x in Indices(rs)
  {
    hide Indices;
    assert Covered(rs, rs[0].first);
  }

  lemma WithoutFirst(rs: seq<Range>)
    requires Sorted(rs) && rs != []
    ensures Sorted(rs[1..]) && Indices(rs[1..]) == Indices(rs) - Interval(rs[0].first, rs[0].second)
  {
    hide Indices, Covered, Sorted;
    assert rs == [rs[0]] + rs[1..];
    FirstParts(rs[0], rs[1..]);
    Above(rs[1..], rs[0].second);
  }

  lemma SameFirst(a: seq<Range>, b: seq<Range>)
    requires Sorted(a) && Sorted(b) && Indices(a) == Indices(b) && a != [] && b != []
    ensures a[0] == b[0]
  {
    hide Indices, Covered, Sorted;
    FirstIsLeast(a);
    FirstIsLeast(b);
    assert a[0].first == b[0].first;
    assert !(a[0].second < b[0].second) && !(b[0].second < a[0].second);
  }

  /** Sorted ranges that stand for the same set are the same. */
  lemma {:induction false} SameRanges(a: seq<Range>, b: seq<Range>)
    requires Sorted(a) && Sorted(b) && Indices(a) == Indices(b)
    ensures a == b
  {
    hide Indices, Covered, Sorted;
    if a != [] {
      FirstIsLeast(a);
    }
    if b != [] {
      FirstIsLeast(b);
    }
    NoRangesNoIndices();
    if a != [] && b != [] {
      SameFirst(a, b);
      WithoutFirst(a);
      WithoutFirst(b);
      SameRanges(a[1..], b[1..]);
      assert a == [a[0]] + a[1..] && b == [b[0]] + b[1..];
    }
  }

  lemma NoRangesNoIndices()
    ensures Indices([]) == {}
  {
  }

  /** The indices at which a range begins. */
  ghost function Starts(s: set<nat>): set<nat> {
    set x | x in s && BeginsRun(s, x)
  }

  ghost predicate BeginsRun(s: set<nat>, x: nat) {
    x == 0 || x - 1 !in s
  }

  lemma {:induction false} RangesAreStarts(rs: seq<Range>)
    requires Sorted(rs)
    ensures |rs| == |Starts(Indices(rs))|
  {
    if rs == [] {
      assert Starts(Indices(rs)) == {};
    } else {
      StartsOfFirst(rs);
      WithoutFirst(rs);
      RangesAreStarts(rs[1..]);
    }
  }

  lemma StartsOfFirst(rs: seq<Range>)
    requires Sorted(rs) && rs != []
    ensures Starts(Indices(rs)) == Starts(Indices(rs[1..])) + {rs[0].first} && rs[0].first !in Starts(Indices(rs[1..]))
  {
    hide Indices, Covered;
    var s, t, r := Indices(rs), Indices(rs[1..]), rs[0];
    FirstIsLeast(rs);
    WithoutFirst(rs);
    assert forall x <- t :: x > r.second by {
      if rs[1..] != [] {
        FirstIsLeast(rs[1..]);
      } else {
        NoRangesNoIndices();
      }
    }
    hide Sorted;
    forall x: nat ensures x in Starts(s) <==> x in Starts(t) || x == r.first {
      if x > r.second {
        assert x in s <==> x in t;
        assert x - 1 in s <==> x - 1 in t;
      } else if r.first < x < r.second {
        assert x - 1 in s;
      }
    }
  }

  /** Adding indices makes at most as many more ranges. */
  lemma AddingRanges(own: seq<Range>, rs: seq<Range>, extra: set<nat>)
    requires Sorted(own) && Sorted(rs) && Indices(rs) == Indices(own) + extra
    ensures |rs| <= |own| + |extra|
  {
    hide Indices, Covered, Sorted;
    RangesAreStarts(own);
    RangesAreStarts(rs);
    var a := Starts(Indices(own));
    assert Starts(Indices(rs)) <= a + extra;
    SubsetSize(Starts(Indices(rs)), a + extra);
    UnionSize(a, extra);
  }

  lemma UnionSize(s: set<nat>, t: set<nat>)
    ensures |s + t| <= |s| + |t|
  {
    assert s + t == s + (t - s);
    SubsetSize(t - s, t);
  }

  // ---------------------------------------------------------------------------
  // Chunks that begin with a range copied from the tail

  /** All that was brought in comes before the range. */
  ghost predicate Late(r: Range, brought: set<nat>) {
    forall y <- brought :: y < r.first
  }

  /** The range at `n` opens an unplanned chunk, was there before, and has several indices. */
  ghost predicate LongAt(rs: seq<Range>, n: nat, planned: nat, brought: set<nat>)
    requires n < |rs|
  {
    n % MAX_SIZE == 0 && n / MAX_SIZE >= planned && Length(rs[n]) > 1 && Late(rs[n], brought)
  }

  ghost predicate OpensLong(rs: seq<Range>, planned: nat, brought: set<nat>) {
    exists n :: 0 <= n < |rs| && LongAt(rs, n, planned, brought)
  }

  ghost predicate Caps(y: nat, s: set<nat>) {
    forall x <- s :: x <= y
  }

  /** As long as something brought in comes last, no range is late. */
  lemma NothingLate(rs: seq<Range>, planned: nat, brought: set<nat>)
    requires Sorted(rs) && (rs == [] || exists y <- brought :: Caps(y, Indices(rs)))
    ensures !OpensLong(rs, planned, brought)
  {
    hide Indices;
    forall n | 0 <= n < |rs| ensures !Late(rs[n], brought) {
      var y :| y in brought && Caps(y, Indices(rs));
      assert rs[n].first in Indices(rs);
    }
  }

  /** One more range of the tail. */
  lemma TailPush(rs: seq<Range>, r: Range, planned: nat, brought: set<nat>)
    requires Sorted(rs) && r.first < r.second && Late(r, brought)
    requires rs != [] && rs[|rs| - 1].second == r.first ==> r.first - 1 in brought
    ensures OpensLong(Extended(rs, r), planned, brought)
       <==> OpensLong(rs, planned, brought) || (OpensUnplanned(rs, r, planned) && r.second != r.first + 1)
  {
    var now, m := Extended(rs, r), |rs| - 1;
    if rs != [] && rs[m].second == r.first {
      assert !Late(rs[m], brought) && !Late(now[m], brought);
      assert forall n :: 0 <= n < m ==> now[n] == rs[n];
      forall n | 0 <= n < |rs| ensures LongAt(now, n, planned, brought) <==> LongAt(rs, n, planned, brought) {
        assert n < m || n == m;
      }
    } else {
      assert now == rs + [r] && now[|rs|] == r;
      forall n | 0 <= n < |rs| ensures LongAt(now, n, planned, brought) <==> LongAt(rs, n, planned, brought) {
        assert now[n] == rs[n];
      }
      assert LongAt(now, |rs|, planned, brought) <==> OpensUnplanned(rs, r, planned) && r.second != r.first + 1;
      if OpensLong(rs, planned, brought) {
        var n :| 0 <= n < |rs| && LongAt(rs, n, planned, brought);
        assert LongAt(now, n, planned, brought);
      }
    }
  }

  // ---------------------------------------------------------------------------
  // The condition on the sets

  /** Bringing `values` into `s` opens no unplanned chunk with a range of several indices that was
      there before.  It speaks of the three sets alone, since they determine all ranges. */
  ghost predicate CountsSurvive(s: set<nat>, shiftedBy: set<nat>, values: set<nat>) {
    forall own, rs ::
      Sorted(own) && Indices(own) == s && Sorted(rs) && Indices(rs) == AddShiftedBy(s, shiftedBy, values) ==>
        !OpensLong(rs, |own| / MAX_SIZE + 1, Brought(s, shiftedBy, values))
  }

  lemma CountsSurviveIff(own: seq<Range>, rs: seq<Range>, shiftedBy: set<nat>, values: set<nat>)
    requires Sorted(own) && Sorted(rs) && Indices(rs) == AddShiftedBy(Indices(own), shiftedBy, values)
    ensures CountsSurvive(Indices(own), shiftedBy, values)
       <==> !OpensLong(rs, |own| / MAX_SIZE + 1, Brought(Indices(own), shiftedBy, values))
  {
    hide Indices, Covered, Sorted, OpensLong, AddShiftedBy, Brought;
    forall own', rs' | Sorted(own') && Indices(own') == Indices(own) && Sorted(rs') && Indices(rs') == Indices(rs)
      ensures own' == own && rs' == rs
    {
      SameRanges(own', own);
      SameRanges(rs', rs);
    }
  }

  lemma BroughtSize(s: set<nat>, shiftedBy: set<nat>, values: set<nat>)
    ensures AddShiftedBy(s, shiftedBy, values) == s + Brought(s, shiftedBy, values)
    ensures |Brought(s, shiftedBy, values)| <= |values|
  {
    BroughtAtMost(s, shiftedBy, values);
  }

  lemma {:induction false} BroughtAtMost(s: set<nat>, shiftedBy: set<nat>, values: set<nat>)
    ensures |Brought(s, shiftedBy, values)| <= |values|
    decreases |values|
  {
    hide Survive;
    if values != {} {
      var x :| x in values;
      var rest := Brought(s, shiftedBy, values - {x});
      BroughtAtMost(s, shiftedBy, values - {x});
      assert Brought(s, shiftedBy, values) == rest + if x in shiftedBy then {} else {Survive(shiftedBy, s, x)};
    }
  }

  /** A guard that a caller can check: as many more ranges fit into the planned chunks. */
  lemma GuardSuffices(s: set<nat>, shiftedBy: set<nat>, values: set<nat>)
    requires |values| <= MAX_SIZE - |Starts(s)| % MAX_SIZE
    ensures CountsSurvive(s, shiftedBy, values)
  {
    hide Indices, Covered, Sorted, AddShiftedBy, Brought, LongAt, Starts;
    var sum := AddShiftedBy(s, shiftedBy, values);
    forall own, rs | Sorted(own) && Indices(own) == s && Sorted(rs) && Indices(rs) == sum
      ensures !OpensLong(rs, |own| / MAX_SIZE + 1, Brought(s, shiftedBy, values))
    {
      RangesAreStarts(own);
      BroughtSize(s, shiftedBy, values);
      AddingRanges(own, rs, Brought(s, shiftedBy, values));
      NoRoomForUnplanned(rs, |own|, Brought(s, shiftedBy, values));
    }
  }

  lemma NoRoomForUnplanned(rs: seq<Range>, size: nat, brought: set<nat>)
    requires |rs| <= size + MAX_SIZE - size % MAX_SIZE
    ensures !OpensLong(rs, size / MAX_SIZE + 1, brought)
  {
  }

  // ---------------------------------------------------------------------------
  // Where the counts do not survive

  function Evens(n: nat): set<nat> {
    if n == 0 then {} else Evens(n - 1) + {2 * (n - 1)}
  }

  function EvenRanges(n: nat): (rs: seq<Range>)
    ensures |rs| == n
  {
    if n == 0 then [] else EvenRanges(n - 1) + [Range(2 * (n - 1), 2 * (n - 1) + 1)]
  }

  lemma {:induction false} EvensApart(n: nat)
    ensures Sorted(EvenRanges(n)) && Indices(EvenRanges(n)) == Evens(n) && EndsBy(EvenRanges(n), 2 * n - 1)
    ensures forall x <- Evens(n) :: x <= 2 * n - 2
  {
    hide Indices, Covered, Sorted;
    if n == 0 {
      NoRangesNoIndices();
      assert Sorted(EvenRanges(0)) by {
        NoneSorted();
      }
    } else {
      EvensApart(n - 1);
      Pushed(EvenRanges(n - 1), Range(2 * (n - 1), 2 * (n - 1) + 1));
      assert Interval(2 * (n - 1), 2 * (n - 1) + 1) == {2 * (n - 1)};
    }
  }

  lemma NoneSorted()
    ensures Sorted([])
  {
  }

  /** As many single indices as fill a chunk, and a range of two: its chunk is not planned for, and
      its count is wrong. */
  method GrownChunkMiscounts() returns (pushes: seq<Range>, chunks: seq<Chunk>)
    ensures pushes == EvenRanges(MAX_SIZE) + [Range(2 * MAX_SIZE, 2 * MAX_SIZE + 2)]
    ensures Flat(chunks) == pushes && !ChunksOk(chunks)
  {
    hide Flat, Total, Sorted, Indices, Covered;
    NoRanges();
    var builder := new ChunkedRangeVectorBuilder([], true);
    pushes := [];
    for k := 0 to MAX_SIZE
      invariant pushes == EvenRanges(k) && builder.asWritten && builder.planned == 1
      invariant builder.Valid() && builder.CountsExact() && builder.Built() == pushes && EndsBy(pushes, 2 * k - 1)
    {
      var next := Range(2 * k, 2 * k + 1);
      pushes := pushes + [next];
      builder.PushBack(next);
    }
    var long := Range(2 * MAX_SIZE, 2 * MAX_SIZE + 2);
    pushes := pushes + [long];
    builder.PushBack(long);
    chunks := builder.Finalize();
  }

  lemma NoRanges()
    ensures Flat([]) == []
  {
  }

  /** Two indices far right, and in front of them as many single ones as fill a chunk. */
  lemma CountsNeedNotSurvive()
    ensures !CountsSurvive(Interval(1000, 1002), {}, Evens(MAX_SIZE))
    ensures AddShiftedBy(Interval(1000, 1002), {}, Evens(MAX_SIZE)) == Evens(MAX_SIZE) + Interval(1000, 1002)
  {
    hide Indices, Covered, Sorted, Evens;
    var r, s, e := Range(1000, 1002), Interval(1000, 1002), Evens(MAX_SIZE);
    var rs := EvenRanges(MAX_SIZE) + [r];
    EvensApart(MAX_SIZE);
    Pushed(EvenRanges(MAX_SIZE), r);
    SortedOne(r);
    IndicesOne(r);
    forall x | x in e ensures Survive({}, s, x) == x {
      EmptyIsIdentity(x);
      ShiftInterval(1000, 1002, x);
    }
    assert Brought(s, {}, e) == e;
    CountsSurviveIff([r], rs, {}, e);
    assert rs[MAX_SIZE] == r;
    assert LongAt(rs, MAX_SIZE, 1, e);
  }
}
