/**
 What editing a sorted sequence of ranges does to the set of indices that it stands for.
 */
module RangeEdits {
  import opened IndexAlgebra
  import opened IndexRanges

  ghost predicate Joins(a: seq<Range>, b: seq<Range>) {
    a == [] || b == [] || a[|a| - 1].second < b[0].first
  }

  lemma SortedConcat(a: seq<Range>, b: seq<Range>)
    ensures Sorted(a + b) <==> Sorted(a) && Sorted(b) && Joins(a, b)
  {
    if Sorted(a + b) {
      SortedParts(a, b);
    }
    if Sorted(a) && Sorted(b) && Joins(a, b) {
      SortedWhole(a, b);
    }
  }

  lemma SortedParts(a: seq<Range>, b: seq<Range>)
    requires Sorted(a + b)
    ensures Sorted(a) && Sorted(b) && Joins(a, b)
  {
    var s := a + b;
    assert forall k :: 0 <= k < |a| ==> a[k] == s[k];
    assert forall k :: 0 <= k < |b| ==> b[k] == s[|a| + k];
  }

  lemma InOrder(rs: seq<Range>, j: nat, k: nat)
    requires Sorted(rs) && j <= k < |rs|
    ensures rs[j].first < rs[j].second && rs[j].first <= rs[k].first && rs[j].second <= rs[k].second
    ensures j < k ==> rs[j].second < rs[k].first
  {
  }

  lemma PairInOrder(a: seq<Range>, b: seq<Range>, j: nat, k: nat)
    requires Sorted(a) && Sorted(b) && Joins(a, b) && j < k < |a| + |b|
    ensures (a + b)[j].second < (a + b)[k].first
  {
    hide Sorted;
    if k < |a| {
      InOrder(a, j, k);
    } else if j >= |a| {
      InOrder(b, j - |a|, k - |a|);
    } else {
      InOrder(a, j, |a| - 1);
      InOrder(b, 0, k - |a|);
    }
  }

  lemma SortedWhole(a: seq<Range>, b: seq<Range>)
    requires Sorted(a) && Sorted(b) && Joins(a, b)
    ensures Sorted(a + b)
  {
    forall k | 0 <= k < |a + b| ensures (a + b)[k].first < (a + b)[k].second {
      if k < |a| {
        InOrder(a, k, k);
      } else {
        InOrder(b, k - |a|, k - |a|);
      }
    }
    forall j, k | 0 <= j < k < |a + b| ensures (a + b)[j].second < (a + b)[k].first {
      PairInOrder(a, b, j, k);
    }
  }

  /** A range that goes in at `k`, possibly touching its neighbours. */
  ghost predicate Between(rs: seq<Range>, k: nat, v: Range) {
    && k <= |rs|
    && (forall i :: 0 <= i < k ==> rs[i].first <= v.first && rs[i].second <= v.first)
    && forall i :: k <= i < |rs| ==> v.first <= rs[i].first && v.second <= rs[i].second
  }

  lemma SortedBetween(rs: seq<Range>, k: nat, v: Range)
    requires k <= |rs| && Sorted(rs[..k] + [v] + rs[k..])
    ensures Between(rs, k, v)
  {
    var s := rs[..k] + [v] + rs[k..];
    assert s[k] == v;
    forall i | 0 <= i < k ensures rs[i].first <= v.first && rs[i].second <= v.first {
      assert s[i] == rs[i];
    }
    forall i | k <= i < |rs| ensures v.first <= rs[i].first && v.second <= rs[i].second {
      assert s[i + 1] == rs[i];
    }
  }

  lemma SortedOne(r: Range)
    ensures Sorted([r]) <==> r.first < r.second
  {
    assert [r][0] == r;
  }

  lemma IndicesOne(r: Range)
    ensures Indices([r]) == Interval(r.first, r.second)
  {
    assert [r][0] == r;
  }

  /** All of it at once: what three consecutive parts amount to. */
  lemma Parts(a: seq<Range>, r: Range, b: seq<Range>)
    ensures Sorted(a + [r] + b) <==> Sorted(a) && r.first < r.second && Sorted(b) && Joins(a, [r]) && Joins([r], b)
    ensures Indices(a + [r] + b) == Indices(a) + Interval(r.first, r.second) + Indices(b)
  {
    hide Sorted, Indices, Covered;
    SortedOne(r);
    IndicesOne(r);
    SortedConcat(a, [r]);
    SortedConcat(a + [r], b);
    IndicesConcat(a, [r]);
    IndicesConcat(a + [r], b);
    assert (a + [r])[|a + [r]| - 1] == r;
  }

  lemma FirstParts(r: Range, b: seq<Range>)
    ensures Sorted([r] + b) <==> r.first < r.second && Sorted(b) && Joins([r], b)
    ensures Indices([r] + b) == Interval(r.first, r.second) + Indices(b)
  {
    hide Sorted, Indices, Covered;
    SortedOne(r);
    IndicesOne(r);
    SortedConcat([r], b);
    IndicesConcat([r], b);
  }

  /** Ranges before a point and ranges after it. */
  ghost predicate EndsBy(a: seq<Range>, n: int) {
    a == [] || a[|a| - 1].second <= n
  }

  ghost predicate BeginsFrom(b: seq<Range>, n: int) {
    b == [] || b[0].first >= n
  }

  lemma Below(a: seq<Range>, n: nat)
    requires Sorted(a) && EndsBy(a, n)
    ensures forall x <- Indices(a) :: x < n
  {
  }

  lemma Above(b: seq<Range>, n: nat)
    requires Sorted(b) && BeginsFrom(b, n)
    ensures forall x <- Indices(b) :: x >= n
  {
  }

  // ---------------------------------------------------------------------------
  // Sliding

  ghost predicate CanSlide(rs: seq<Range>, d: int) {
    forall k :: 0 <= k < |rs| ==> rs[k].first + d >= 0 && rs[k].second + d >= 0
  }

  ghost function Slide(rs: seq<Range>, d: int): (s: seq<Range>)
    requires CanSlide(rs, d)
    ensures |s| == |rs|
    ensures forall k :: 0 <= k < |rs| ==> s[k].first == rs[k].first + d && s[k].second == rs[k].second + d
  {
    seq(|rs|, k requires 0 <= k < |rs| => Range(rs[k].first + d, rs[k].second + d))
  }

  lemma SlideSorted(rs: seq<Range>, d: int)
    requires Sorted(rs) && CanSlide(rs, d)
    ensures Sorted(Slide(rs, d))
  {
  }

  lemma SlideMember(rs: seq<Range>, d: int, x: int)
    requires CanSlide(rs, d)
    ensures Covered(Slide(rs, d), x) <==> Covered(rs, x - d)
  {
    hide Slide;
    var s := Slide(rs, d);
    if Covered(rs, x - d) {
      var k :| 0 <= k < |rs| && rs[k].first <= x - d < rs[k].second;
      assert s[k].first <= x < s[k].second;
    }
    if Covered(s, x) {
      var k :| 0 <= k < |s| && s[k].first <= x < s[k].second;
      assert rs[k].first <= x - d < rs[k].second;
    }
  }

  lemma SlidInOrder(b: seq<Range>, d: int, n: int)
    requires Sorted(b) && BeginsFrom(b, n) && n + d >= 0
    ensures CanSlide(b, d) && Sorted(Slide(b, d)) && BeginsFrom(Slide(b, d), n + d)
  {
    hide Slide;
    SlideSorted(b, d);
  }

  ghost predicate MovedBy(s: set<nat>, s': set<nat>, d: int) {
    forall x :: x in s' <==> x - d in s
  }

  /** Sorted ranges from `n` on, slid as a whole. */
  lemma Slid(b: seq<Range>, d: int, n: int)
    requires Sorted(b) && BeginsFrom(b, n) && n + d >= 0
    ensures CanSlide(b, d) && Sorted(Slide(b, d)) && BeginsFrom(Slide(b, d), n + d)
    ensures MovedBy(Indices(b), Indices(Slide(b, d)), d)
  {
    hide Indices, Slide;
    SlidInOrder(b, d, n);
    forall x ensures x in Indices(Slide(b, d)) <==> x - d in Indices(b) {
      SlideMember(b, d, x);
    }
  }

  // ---------------------------------------------------------------------------
  // Adding one index

  lemma AddAlone(a: seq<Range>, b: seq<Range>, x: nat)
    requires Sorted(a + b) && EndsBy(a, x - 1) && BeginsFrom(b, x + 2)
    ensures Sorted(a + [Range(x, x + 1)] + b) && Indices(a + [Range(x, x + 1)] + b) == Indices(a + b) + {x}
  {
    hide Sorted, Indices, Covered;
    SortedConcat(a, b);
    Parts(a, Range(x, x + 1), b);
    IndicesConcat(a, b);
    assert Interval(x, x + 1) == {x};
  }

  lemma AddAfter(a: seq<Range>, r: Range, b: seq<Range>)
    requires Sorted(a + [r] + b) && BeginsFrom(b, r.second + 2)
    ensures Sorted(a + [Range(r.first, r.second + 1)] + b)
    ensures Indices(a + [Range(r.first, r.second + 1)] + b) == Indices(a + [r] + b) + {r.second}
  {
    hide Sorted, Indices, Covered;
    Parts(a, r, b);
    Parts(a, Range(r.first, r.second + 1), b);
  }

  lemma AddBefore(a: seq<Range>, r: Range, b: seq<Range>, x: nat)
    requires Sorted(a + [r] + b) && EndsBy(a, x - 1) && r.first == x + 1
    ensures Sorted(a + [Range(x, r.second)] + b)
    ensures Indices(a + [Range(x, r.second)] + b) == Indices(a + [r] + b) + {x}
  {
    hide Sorted, Indices, Covered;
    Parts(a, r, b);
    Parts(a, Range(x, r.second), b);
    assert Interval(x, r.second) == Interval(x + 1, r.second) + {x};
  }

  lemma AddBetween(a: seq<Range>, r: Range, q: Range, b: seq<Range>)
    requires Sorted(a + [r] + ([q] + b)) && q.first == r.second + 1
    ensures Sorted(a + [Range(r.first, q.second)] + b)
    ensures Indices(a + [Range(r.first, q.second)] + b) == Indices(a + [r] + ([q] + b)) + {r.second}
  {
    hide Sorted, Indices, Covered;
    Parts(a, r, [q] + b);
    FirstParts(q, b);
    Parts(a, Range(r.first, q.second), b);
    assert Interval(r.first, q.second) == Interval(r.first, r.second) + Interval(q.first, q.second) + {r.second};
  }

  // ---------------------------------------------------------------------------
  // Opening a gap

  lemma InGap(s: set<nat>, index: nat, count: nat, x: int)
    ensures x in ShiftForInsertAt(s, index, count) <==> (x < index && x in s) || (x >= index + count && x - count in s)
  {
    if x >= index + count && x - count in s {
      assert x == if x - count < index then x - count else x - count + count;
    }
  }

  lemma BesideGap(low: set<nat>, high: set<nat>, high': set<nat>, index: nat, count: nat)
    requires (forall x <- low :: x < index) && (forall x <- high :: x >= index) && MovedBy(high, high', count)
    ensures low + high' == ShiftForInsertAt(low + high, index, count)
  {
    hide ShiftForInsertAt;
    forall x ensures x in low + high' <==> x in ShiftForInsertAt(low + high, index, count) {
      InGap(low + high, index, count, x);
    }
  }

  lemma GapBetween(a: seq<Range>, b: seq<Range>, index: nat, count: nat)
    requires Sorted(a + b) && EndsBy(a, index) && BeginsFrom(b, index)
    ensures CanSlide(b, count) && Sorted(a + Slide(b, count))
    ensures Indices(a + Slide(b, count)) == ShiftForInsertAt(Indices(a + b), index, count)
  {
    hide Indices, Slide, Sorted, Covered, ShiftForInsertAt, CanSlide, MovedBy;
    SortedConcat(a, b);
    Slid(b, count, index);
    var b' := Slide(b, count);
    SortedConcat(a, b');
    IndicesConcat(a, b);
    IndicesConcat(a, b');
    Below(a, index);
    Above(b, index);
    BesideGap(Indices(a), Indices(b), Indices(b'), index, count);
  }

  /** Sets that lie below, within and above a range, the upper one moved by `d`. */
  ghost predicate Layers(low: set<nat>, r: Range, high: set<nat>, high': set<nat>, d: int) {
    && (forall x <- low :: x < r.first)
    && (forall x <- high :: x >= r.second)
    && MovedBy(high, high', d)
  }

  lemma LayersFill(low: set<nat>, r: Range, high: set<nat>, high': set<nat>, index: nat, count: nat)
    requires Layers(low, r, high, high', count) && r.first <= index < r.second
    ensures low + Interval(r.first, r.second + count) + high' ==
              InsertAt(low + Interval(r.first, r.second) + high, index, count)
  {
    hide ShiftForInsertAt;
    var was := low + Interval(r.first, r.second) + high;
    var now := low + Interval(r.first, r.second + count) + high';
    forall x ensures x in now <==> x in InsertAt(was, index, count) {
      InGap(was, index, count, x);
    }
  }

  lemma LayersGap(low: set<nat>, r: Range, high: set<nat>, high': set<nat>, index: nat, count: nat)
    requires Layers(low, r, high, high', count) && r.first <= index < r.second
    ensures low + Interval(r.first, index) + (Interval(index + count, r.second + count) + high')
         == ShiftForInsertAt(low + Interval(r.first, r.second) + high, index, count)
  {
    hide ShiftForInsertAt;
    var was := low + Interval(r.first, r.second) + high;
    var now := low + Interval(r.first, index) + (Interval(index + count, r.second + count) + high');
    forall x ensures x in now <==> x in ShiftForInsertAt(was, index, count) {
      InGap(was, index, count, x);
    }
  }

  lemma LayersErase(low: set<nat>, r: Range, high: set<nat>, high': set<nat>, index: nat)
    requires Layers(low, r, high, high', -1) && r.first <= index < r.second
    ensures low + Interval(r.first, r.second - 1) + high' == EraseAt(low + Interval(r.first, r.second) + high, index)
  {
    hide EraseAt;
    var mid, mid' := Interval(r.first, r.second), Interval(r.first, r.second - 1);
    var was, now := low + mid + high, low + mid' + high';
    forall x: nat ensures x in now <==> x in EraseAt(was, index) {
      InErased(was, index, x);
      assert x in high' <==> x + 1 in high;
      assert x in mid' ==> x in mid && x + 1 in mid;
      assert x >= index ==> (x + 1 in mid ==> x in mid') && x !in low && x + 1 !in low;
    }
  }

  lemma LayersSlid(a: seq<Range>, r: Range, b: seq<Range>, d: int)
    requires Sorted(a + [r] + b) && r.second + d >= 0
    ensures CanSlide(b, d) && Layers(Indices(a), r, Indices(b), Indices(Slide(b, d)), d)
  {
    hide Indices, Slide, Sorted, Covered, CanSlide, MovedBy;
    Parts(a, r, b);
    Slid(b, d, r.second);
    Below(a, r.first);
    Above(b, r.second);
  }

  lemma GapInside(a: seq<Range>, r: Range, b: seq<Range>, index: nat, count: nat)
    requires Sorted(a + [r] + b) && r.first < index < r.second && count > 0
    ensures CanSlide(b, count)
    ensures var rs := a + [Range(r.first, index)] + ([Range(index + count, r.second + count)] + Slide(b, count));
            Sorted(rs) && Indices(rs) == ShiftForInsertAt(Indices(a + [r] + b), index, count)
  {
    hide Indices, Slide, Sorted, Covered, ShiftForInsertAt, InsertAt, CanSlide, Layers;
    Parts(a, r, b);
    SlidInOrder(b, count, r.second);
    var low, high, b' := Range(r.first, index), Range(index + count, r.second + count), Slide(b, count);
    FirstParts(high, b');
    Parts(a, low, [high] + b');
    LayersSlid(a, r, b, count);
    LayersGap(Indices(a), r, Indices(b), Indices(b'), index, count);
  }

  lemma FillInside(a: seq<Range>, r: Range, b: seq<Range>, index: nat, count: nat)
    requires Sorted(a + [r] + b) && r.first <= index < r.second
    ensures CanSlide(b, count)
    ensures var rs := a + [Range(r.first, r.second + count)] + Slide(b, count);
            Sorted(rs) && Indices(rs) == InsertAt(Indices(a + [r] + b), index, count)
  {
    hide Indices, Slide, Sorted, Covered, ShiftForInsertAt, InsertAt, CanSlide, Layers;
    Parts(a, r, b);
    SlidInOrder(b, count, r.second);
    var b', r' := Slide(b, count), Range(r.first, r.second + count);
    Parts(a, r', b');
    LayersSlid(a, r, b, count);
    LayersFill(Indices(a), r, Indices(b), Indices(b'), index, count);
  }

  // ---------------------------------------------------------------------------
  // Erasing one index

  lemma InErased(s: set<nat>, index: nat, x: int)
    ensures x in EraseAt(s, index) <==> (0 <= x < index && x in s) || (x >= index && x + 1 in s)
  {
    if x >= index && x + 1 in s {
      assert x == if x + 1 < index then x + 1 else x + 1 - 1;
    }
  }

  lemma BesideErased(low: set<nat>, high: set<nat>, high': set<nat>, index: nat)
    requires (forall x <- low :: x < index) && (forall x <- high :: x > index) && MovedBy(high, high', -1)
    ensures low + high' == EraseAt(low + high, index)
  {
    hide EraseAt;
    forall x: nat ensures x in low + high' <==> x in EraseAt(low + high, index) {
      InErased(low + high, index, x);
      assert x in high' <==> x + 1 in high;
    }
  }

  /** The index lies between the ranges, which do not come to touch. */
  lemma EraseBetween(a: seq<Range>, b: seq<Range>, index: nat)
    requires Sorted(a + b) && EndsBy(a, index) && BeginsFrom(b, index + 1)
    requires a == [] || BeginsFrom(b, a[|a| - 1].second + 2)
    ensures CanSlide(b, -1) && Sorted(a + Slide(b, -1))
    ensures Indices(a + Slide(b, -1)) == EraseAt(Indices(a + b), index)
  {
    hide Indices, Slide, Sorted, Covered, EraseAt, CanSlide, MovedBy;
    SortedConcat(a, b);
    Slid(b, -1, index + 1);
    if a != [] {
      SlidInOrder(b, -1, a[|a| - 1].second + 2);
    }
    var b' := Slide(b, -1);
    SortedConcat(a, b');
    IndicesConcat(a, b);
    IndicesConcat(a, b');
    Below(a, index);
    Above(b, index + 1);
    BesideErased(Indices(a), Indices(b), Indices(b'), index);
  }

  /** The index is in a range of which something remains. */
  lemma EraseInside(a: seq<Range>, r: Range, b: seq<Range>, index: nat)
    requires Sorted(a + [r] + b) && r.first <= index < r.second && r.first + 1 < r.second
    ensures CanSlide(b, -1)
    ensures var rs := a + [Range(r.first, r.second - 1)] + Slide(b, -1);
            Sorted(rs) && Indices(rs) == EraseAt(Indices(a + [r] + b), index)
  {
    hide Indices, Slide, Sorted, Covered, EraseAt, CanSlide, Layers;
    Parts(a, r, b);
    SlidInOrder(b, -1, r.second + 1);
    var b' := Slide(b, -1);
    assert Joins([Range(r.first, r.second - 1)], b');
    Parts(a, Range(r.first, r.second - 1), b');
    LayersSlid(a, r, b, -1);
    LayersErase(Indices(a), r, Indices(b), Indices(b'), index);
  }

  /** The index is all there is of its range. */
  lemma EraseWhole(a: seq<Range>, b: seq<Range>, index: nat)
    requires Sorted(a + [Range(index, index + 1)] + b)
    ensures CanSlide(b, -1) && Sorted(a + Slide(b, -1))
    ensures Indices(a + Slide(b, -1)) == EraseAt(Indices(a + [Range(index, index + 1)] + b), index)
  {
    hide Indices, Slide, Sorted, Covered, EraseAt, CanSlide;
    Parts(a, Range(index, index + 1), b);
    SortedConcat(a, b);
    IndicesConcat(a, b);
    EraseBetween(a, b, index);
    EraseIgnores(Indices(a + b), index);
  }

  lemma EraseIgnores(s: set<nat>, index: nat)
    ensures EraseAt(s + {index}, index) == EraseAt(s, index)
    ensures forall t :: t == s + Interval(index, index + 1) ==> EraseAt(t, index) == EraseAt(s, index)
  {
    hide EraseAt;
    assert Interval(index, index + 1) == {index};
    forall x ensures x in EraseAt(s + {index}, index) <==> x in EraseAt(s, index) {
      InErased(s + {index}, index, x);
      InErased(s, index, x);
    }
  }

  /** The index is all that kept two ranges apart. */
  lemma EraseJoins(a: seq<Range>, r: Range, q: Range, b: seq<Range>)
    requires Sorted(a + [r] + ([q] + b)) && q.first == r.second + 1
    ensures r.second < q.second && CanSlide(b, -1)
    ensures var rs := a + [Range(r.first, q.second - 1)] + Slide(b, -1);
            Sorted(rs) && Indices(rs) == EraseAt(Indices(a + [r] + ([q] + b)), r.second)
  {
    hide Indices, Slide, Sorted, Covered, EraseAt, CanSlide;
    Parts(a, r, [q] + b);
    FirstParts(q, b);
    AddBetween(a, r, q, b);
    EraseInside(a, Range(r.first, q.second), b, r.second);
    EraseIgnores(Indices(a + [r] + ([q] + b)), r.second);
  }

  // ---------------------------------------------------------------------------
  // The same, at the place where an index belongs

  /** The range at `k` is the first that ends after `index`. */
  ghost predicate Found(rs: seq<Range>, k: nat, index: nat) {
    && k <= |rs|
    && (k > 0 ==> rs[k - 1].second <= index)
    && (k < |rs| ==> index < rs[k].second)
  }

  lemma OrderAt(rs: seq<Range>, k: nat)
    requires Sorted(rs) && k <= |rs|
    ensures 0 < k < |rs| ==> rs[k - 1].second < rs[k].first
    ensures 0 < k ==> rs[k - 1].first < rs[k - 1].second
    ensures k < |rs| ==> rs[k].first < rs[k].second
  {
  }

  lemma FoundMember(rs: seq<Range>, k: nat, index: nat)
    requires Sorted(rs) && Found(rs, k, index)
    ensures index in Indices(rs) <==> k < |rs| && rs[k].first <= index
  {
    hide Indices;
    if k < |rs| && rs[k].first <= index {
      assert Covered(rs, index);
    } else {
      NotCovered(rs, k, index);
    }
  }

  lemma AddAloneAt(rs: seq<Range>, k: nat, x: nat)
    requires Sorted(rs) && Found(rs, k, x) && (k > 0 ==> rs[k - 1].second < x) && (k < |rs| ==> x + 1 < rs[k].first)
    ensures Sorted(rs[..k] + [Range(x, x + 1)] + rs[k..])
    ensures Indices(rs[..k] + [Range(x, x + 1)] + rs[k..]) == Indices(rs) + {x}
  {
    hide Sorted, Indices, Covered;
    assert rs == rs[..k] + rs[k..];
    AddAlone(rs[..k], rs[k..], x);
  }

  lemma AddAfterAt(rs: seq<Range>, k: nat, x: nat)
    requires Sorted(rs) && Found(rs, k, x) && k > 0 && rs[k - 1].second == x && (k < |rs| ==> x + 1 < rs[k].first)
    ensures var rs' := rs[k - 1 := Range(rs[k - 1].first, x + 1)];
            Sorted(rs') && Indices(rs') == Indices(rs) + {x}
  {
    hide Sorted, Indices, Covered;
    Middle(rs, k - 1);
    Update(rs, k - 1, Range(rs[k - 1].first, x + 1));
    AddAfter(rs[..k - 1], rs[k - 1], rs[k..]);
  }

  lemma AddBeforeAt(rs: seq<Range>, k: nat, x: nat)
    requires Sorted(rs) && Found(rs, k, x) && (k > 0 ==> rs[k - 1].second < x) && k < |rs| && x + 1 == rs[k].first
    ensures var rs' := rs[k := Range(x, rs[k].second)];
            Sorted(rs') && Indices(rs') == Indices(rs) + {x}
  {
    hide Sorted, Indices, Covered;
    Middle(rs, k);
    Update(rs, k, Range(x, rs[k].second));
    AddBefore(rs[..k], rs[k], rs[k + 1..], x);
  }

  lemma AddBetweenAt(rs: seq<Range>, k: nat, x: nat)
    requires Sorted(rs) && 0 < k < |rs| && rs[k - 1].second == x && x + 1 == rs[k].first
    ensures var rs' := rs[k - 1 := Range(rs[k - 1].first, rs[k].second)];
            Sorted(rs'[..k] + rs'[k + 1..]) && Indices(rs'[..k] + rs'[k + 1..]) == Indices(rs) + {x}
  {
    hide Sorted, Indices, Covered;
    var a, r, q, b := rs[..k - 1], rs[k - 1], rs[k], rs[k + 1..];
    var rs' := rs[k - 1 := Range(r.first, q.second)];
    assert rs == a + [r] + ([q] + b);
    assert rs'[..k] == a + [Range(r.first, q.second)] && rs'[k + 1..] == b;
    AddBetween(a, r, q, b);
  }

  /** How many members are below a point, from the range that reaches it. */
  lemma CountAt(rs: seq<Range>, k: nat, n: nat)
    requires Sorted(rs) && k <= |rs| && (k > 0 ==> rs[k - 1].second <= n) && (k < |rs| ==> n <= rs[k].second)
    ensures CountBelow(Indices(rs), n) == Total(rs[..k]) + if k < |rs| && rs[k].first < n then n - rs[k].first else 0
  {
    hide Indices, Covered, Total, CountBelow;
    if k < |rs| && rs[k].first < n {
      CountPartial(rs, k, n);
    } else {
      CountPrefix(rs, k, n);
    }
  }

  lemma TotalNext(rs: seq<Range>, k: nat)
    requires k < |rs|
    ensures Total(rs[..k + 1]) == Total(rs[..k]) + Length(rs[k])
  {
    assert rs[..k + 1][..k] == rs[..k];
  }

  /** An index moved by the ranges that begin no later than where it has got to. */
  lemma ShiftIs(rs: seq<Range>, k: nat, index: nat, x: nat)
    requires Sorted(rs) && k <= |rs| && x == index + Total(rs[..k])
    requires (k > 0 ==> rs[k - 1].second <= x) && (k < |rs| ==> x < rs[k].first)
    ensures Shift(Indices(rs), index) == x
  {
    hide Indices, Covered, Total, CountBelow, Shift;
    CountPrefix(rs, k, x);
    NotCovered(rs, k, x);
    UnshiftInjective(Indices(rs), Shift(Indices(rs), index), x);
  }

  /** The ranges from `k` on, slid. */
  ghost function SlideFrom(rs: seq<Range>, k: nat, d: int): seq<Range>
    requires k <= |rs| && CanSlide(rs[k..], d)
  {
    rs[..k] + Slide(rs[k..], d)
  }

  /** The ranges from `k` up to `j` have been slid. */
  ghost predicate Sliding(rs: seq<Range>, k: nat, j: nat, d: int, now: seq<Range>) {
    && |now| == |rs| && k <= j <= |rs|
    && (forall i :: 0 <= i < |rs| && !(k <= i < j) ==> now[i] == rs[i])
    && forall i :: k <= i < j ==> now[i].first == rs[i].first + d && now[i].second == rs[i].second + d
  }

  lemma SlidingStarts(rs: seq<Range>, k: nat, d: int)
    requires k <= |rs|
    ensures Sliding(rs, k, k, d, rs)
  {
  }

  lemma SlidingNext(rs: seq<Range>, k: nat, j: nat, d: int, now: seq<Range>, v: Range)
    requires Sliding(rs, k, j, d, now) && j < |rs| && v.first == now[j].first + d && v.second == now[j].second + d
    ensures Sliding(rs, k, j + 1, d, now[j := v])
  {
  }

  lemma SlidingEnds(rs: seq<Range>, k: nat, d: int, now: seq<Range>)
    requires Sliding(rs, k, |rs|, d, now) && CanSlide(rs[k..], d)
    ensures now == SlideFrom(rs, k, d)
  {
    forall i | k <= i < |rs| ensures now[i] == SlideFrom(rs, k, d)[i] {
      assert rs[k..][i - k] == rs[i];
    }
  }

  lemma SlidingMay(rs: seq<Range>, k: nat, j: nat, d: int, now: seq<Range>)
    requires Sliding(rs, k, j, d, now) && CanSlide(rs[k..], d) && j < |rs|
    ensures now[j].first + d >= 0 && now[j].second + d >= 0
  {
    assert rs[k..][j - k] == rs[j];
  }

  lemma GapBetweenAt(rs: seq<Range>, k: nat, index: nat, count: nat)
    requires Sorted(rs) && Found(rs, k, index) && (k < |rs| ==> index <= rs[k].first)
    ensures CanSlide(rs[k..], count) && Sorted(SlideFrom(rs, k, count))
    ensures Indices(SlideFrom(rs, k, count)) == ShiftForInsertAt(Indices(rs), index, count)
  {
    hide Sorted, Indices, Covered, Slide, CanSlide;
    assert rs == rs[..k] + rs[k..];
    GapBetween(rs[..k], rs[k..], index, count);
  }

  lemma FoundAfterGap(rs: seq<Range>, k: nat, index: nat, count: nat)
    requires Found(rs, k, index)
    ensures CanSlide(rs[k..], count) && Found(SlideFrom(rs, k, count), k, index)
    ensures k == |rs| ==> SlideFrom(rs, k, count) == rs
  {
    if k < |rs| {
      assert SlideFrom(rs, k, count)[k] == Slide(rs[k..], count)[0];
    }
    if k > 0 {
      assert SlideFrom(rs, k, count)[k - 1] == rs[k - 1];
    }
  }

  lemma NothingSlides(rs: seq<Range>, k: nat)
    requires k == |rs|
    ensures SlideFrom(rs, k, -1) == rs
  {
  }

  lemma GapIsFree(rs: seq<Range>, k: nat, index: nat, count: nat)
    requires Sorted(rs) && Found(rs, k, index) && (k < |rs| ==> index < rs[k].first)
    ensures forall x <- ShiftForInsertAt(Indices(rs), index, count) :: !(index <= x <= index + count)
  {
    hide Indices, ShiftForInsertAt, Covered, Sorted;
    FoundMember(rs, k, index);
    forall x | x in ShiftForInsertAt(Indices(rs), index, count) ensures !(index <= x <= index + count) {
      InGap(Indices(rs), index, count, x);
    }
  }

  lemma GapInsideAt(rs: seq<Range>, k: nat, index: nat, count: nat)
    requires Sorted(rs) && k < |rs| && rs[k].first < index < rs[k].second && count > 0
    ensures CanSlide(rs[k..], count)
    ensures var rs1 := SlideFrom(rs, k, count)[k := Range(rs[k].first, index)];
            var rs2 := rs1[..k + 1] + [Range(index + count, rs[k].second + count)] + rs1[k + 1..];
            Sorted(rs2) && Indices(rs2) == ShiftForInsertAt(Indices(rs), index, count)
  {
    hide Sorted, Indices, Covered;
    var a, b := rs[..k], rs[k + 1..];
    Middle(rs, k);
    GapInside(a, rs[k], b, index, count);
    SlideHead(rs, k, count);
    hide Slide;
    var low, high := Range(rs[k].first, index), Range(index + count, rs[k].second + count);
    var rs1 := SlideFrom(rs, k, count)[k := low];
    assert rs1[..k + 1] == a + [low] && rs1[k + 1..] == Slide(b, count);
    assert a + [low] + ([high] + Slide(b, count)) == a + [low] + [high] + Slide(b, count);
  }

  /** Sliding the first range on its own, then the others. */
  lemma SlideHead(rs: seq<Range>, k: nat, d: nat)
    requires k < |rs|
    ensures CanSlide(rs[k..], d) && CanSlide(rs[k + 1..], d)
    ensures SlideFrom(rs, k, d) == rs[..k] + [Range(rs[k].first + d, rs[k].second + d)] + Slide(rs[k + 1..], d)
    ensures var rs1 := rs[k := Range(rs[k].first + d, rs[k].second + d)];
            rs1[k + 1..] == rs[k + 1..] && SlideFrom(rs1, k + 1, d) == SlideFrom(rs, k, d)
  {
  }

  lemma FillInsideAt(rs: seq<Range>, k: nat, index: nat, count: nat)
    requires Sorted(rs) && k < |rs| && rs[k].first <= index < rs[k].second
    ensures CanSlide(rs[k + 1..], count)
    ensures var rs1 := rs[k := Range(rs[k].first, rs[k].second + count)];
            && rs1[k + 1..] == rs[k + 1..]
            && Sorted(SlideFrom(rs1, k + 1, count))
            && Indices(SlideFrom(rs1, k + 1, count)) == InsertAt(Indices(rs), index, count)
  {
    hide Sorted, Indices, Covered, Slide, CanSlide, InsertAt;
    var v := Range(rs[k].first, rs[k].second + count);
    Middle(rs, k);
    assert rs[k := v][..k + 1] == rs[..k] + [v] && rs[k := v][k + 1..] == rs[k + 1..];
    FillInside(rs[..k], rs[k], rs[k + 1..], index, count);
  }

  lemma EraseInsideAt(rs: seq<Range>, k: nat, index: nat)
    requires Sorted(rs) && k < |rs| && rs[k].first <= index < rs[k].second && rs[k].first + 1 < rs[k].second
    ensures CanSlide(rs[k + 1..], -1)
    ensures var rs1 := rs[k := Range(rs[k].first, rs[k].second - 1)];
            && rs1[k + 1..] == rs[k + 1..]
            && Sorted(SlideFrom(rs1, k + 1, -1))
            && Indices(SlideFrom(rs1, k + 1, -1)) == EraseAt(Indices(rs), index)
  {
    hide Sorted, Indices, Covered, Slide, CanSlide, EraseAt;
    var v := Range(rs[k].first, rs[k].second - 1);
    Middle(rs, k);
    assert rs[k := v][..k + 1] == rs[..k] + [v] && rs[k := v][k + 1..] == rs[k + 1..];
    EraseInside(rs[..k], rs[k], rs[k + 1..], index);
  }

  lemma EraseWholeAt(rs: seq<Range>, k: nat)
    requires Sorted(rs) && k < |rs| && rs[k].first + 1 == rs[k].second
    ensures var rs1 := rs[..k] + rs[k + 1..];
            && CanSlide(rs1[k..], -1) && Sorted(SlideFrom(rs1, k, -1))
            && Indices(SlideFrom(rs1, k, -1)) == EraseAt(Indices(rs), rs[k].first)
  {
    hide Sorted, Indices, Covered, Slide, CanSlide, EraseAt;
    var rs1 := rs[..k] + rs[k + 1..];
    Middle(rs, k);
    assert rs1[..k] == rs[..k] && rs1[k..] == rs[k + 1..];
    EraseWhole(rs[..k], rs[k + 1..], rs[k].first);
  }

  lemma EraseBetweenAt(rs: seq<Range>, k: nat, index: nat)
    requires Sorted(rs) && Found(rs, k, index) && (k < |rs| ==> index < rs[k].first)
    requires 0 < k < |rs| ==> rs[k - 1].second + 1 < rs[k].first
    ensures CanSlide(rs[k..], -1) && Sorted(SlideFrom(rs, k, -1))
    ensures Indices(SlideFrom(rs, k, -1)) == EraseAt(Indices(rs), index)
  {
    hide Sorted, Indices, Covered, Slide, CanSlide, EraseAt;
    assert rs == rs[..k] + rs[k..];
    EraseBetween(rs[..k], rs[k..], index);
  }

  /** Two neighbours replaced by one. */
  lemma JoinShape<T>(s: seq<T>, k: nat, v: T)
    requires 0 < k < |s|
    ensures s == s[..k - 1] + [s[k - 1]] + ([s[k]] + s[k + 1..])
    ensures var s1 := s[k - 1 := v];
            var s2 := s1[..k] + s1[k + 1..];
            s2[..k] == s[..k - 1] + [v] && s2[k..] == s[k + 1..]
  {
  }

  lemma EraseJoinsAt(rs: seq<Range>, k: nat, rs2: seq<Range>)
    requires Sorted(rs) && 0 < k < |rs| == |rs2| + 1 && rs[k - 1].second + 1 == rs[k].first < rs[k].second
    requires rs2[..k] == rs[..k - 1] + [Range(rs[k - 1].first, rs[k].second - 1)] && rs2[k..] == rs[k + 1..]
    ensures CanSlide(rs2[k..], -1) && Sorted(SlideFrom(rs2, k, -1))
    ensures Indices(SlideFrom(rs2, k, -1)) == EraseAt(Indices(rs), rs[k - 1].second)
  {
    hide Sorted, Indices, Covered, Slide, CanSlide, EraseAt;
    var a, r, q, b := rs[..k - 1], rs[k - 1], rs[k], rs[k + 1..];
    JoinShape(rs, k, r);
    EraseJoins(a, r, q, b);
  }

  // ---------------------------------------------------------------------------
  // Removing without shifting

  lemma TrimAt(rs: seq<Range>, k: nat, v: Range)
    requires Sorted(rs) && k < |rs| && rs[k].first <= v.first < v.second <= rs[k].second
    ensures Sorted(rs[k := v])
    ensures Indices(rs[k := v]) == Indices(rs) - (Interval(rs[k].first, v.first) + Interval(v.second, rs[k].second))
  {
    hide Sorted, Indices, Covered;
    var a, b := rs[..k], rs[k + 1..];
    Middle(rs, k);
    Update(rs, k, v);
    Parts(a, rs[k], b);
    Parts(a, v, b);
    Below(a, rs[k].first);
    Above(b, rs[k].second);
  }

  lemma RemoveWholeAt(rs: seq<Range>, k: nat)
    requires Sorted(rs) && k < |rs|
    ensures Sorted(rs[..k] + rs[k + 1..])
    ensures Indices(rs[..k] + rs[k + 1..]) == Indices(rs) - Interval(rs[k].first, rs[k].second)
  {
    hide Sorted, Indices, Covered;
    var a, b := rs[..k], rs[k + 1..];
    Middle(rs, k);
    Parts(a, rs[k], b);
    SortedConcat(a, b);
    IndicesConcat(a, b);
    Below(a, rs[k].first);
    Above(b, rs[k].second);
  }

  ghost predicate Inside(rs: seq<Range>, x: nat) {
    exists k :: 0 <= k < |rs| && rs[k].first < x < rs[k].second
  }

  lemma InsideAt(rs: seq<Range>, k: nat, x: nat)
    requires Sorted(rs) && Found(rs, k, x)
    ensures Inside(rs, x) <==> k < |rs| && rs[k].first < x
  {
  }

  /** A range cut in two: the parts touch. */
  lemma CutInTwoAt(rs: seq<Range>, k: nat, x: nat)
    requires Sorted(rs) && k < |rs| && rs[k].first < x < rs[k].second
    ensures var rs1, high := rs[k := Range(rs[k].first, x)], Range(x, rs[k].second);
            var rs2 := rs1[..k + 1] + [high] + rs1[k + 1..];
            Between(rs1, k + 1, high) && !Sorted(rs2) && Indices(rs2) == Indices(rs)
  {
    hide Indices, Covered;
    assert Between(rs[k := Range(rs[k].first, x)], k + 1, Range(x, rs[k].second));
    hide Sorted, Between;
    var a, b, low, high := rs[..k], rs[k + 1..], Range(rs[k].first, x), Range(x, rs[k].second);
    var rs1 := rs[k := low];
    Middle(rs, k);
    assert rs1[..k + 1] == a + [low] && rs1[k + 1..] == b;
    Parts(a, rs[k], b);
    IndicesOne(low);
    IndicesConcat(a, [low]);
    assert (a + [low])[|a|] == low;
    Parts(a + [low], high, b);
    assert Interval(rs[k].first, rs[k].second) == Interval(low.first, x) + Interval(x, high.second);
  }

  lemma RemoveInsideAt(rs: seq<Range>, k: nat, lo: nat, hi: nat)
    requires Sorted(rs) && k < |rs| && rs[k].first < lo < hi < rs[k].second
    ensures var rs1 := rs[k := Range(rs[k].first, lo)];
            var rs2 := rs1[..k + 1] + [Range(hi, rs[k].second)] + rs1[k + 1..];
            Sorted(rs2) && Indices(rs2) == Indices(rs) - Interval(lo, hi)
  {
    hide Sorted, Indices, Covered;
    var a, b, low, high := rs[..k], rs[k + 1..], Range(rs[k].first, lo), Range(hi, rs[k].second);
    var rs1 := rs[k := low];
    Middle(rs, k);
    assert rs1[..k + 1] == a + [low] && rs1[k + 1..] == b;
    Parts(a, rs[k], b);
    SortedOne(low);
    SortedConcat(a, [low]);
    IndicesOne(low);
    IndicesConcat(a, [low]);
    assert (a + [low])[|a|] == low;
    Parts(a + [low], high, b);
    Below(a, rs[k].first);
    Above(b, rs[k].second);
    assert Interval(rs[k].first, rs[k].second) == Interval(low.first, lo) + Interval(lo, hi)
              + Interval(hi, high.second);
  }

  // ---------------------------------------------------------------------------
  // Going through the indices one by one

  /** The indices from an offset into a range on. */
  ghost function From(rs: seq<Range>, k: nat, offset: nat): set<nat>
    requires k <= |rs|
  {
    set x | x in Indices(rs) && k < |rs| && x >= rs[k].first + offset
  }

  lemma FromStart(rs: seq<Range>)
    requires Sorted(rs)
    ensures From(rs, 0, 0) == Indices(rs)
  {
    hide Indices;
  }

  lemma FromHere(rs: seq<Range>, k: nat, offset: nat)
    requires Sorted(rs) && k < |rs| && rs[k].first + offset < rs[k].second
    ensures rs[k].first + offset in From(rs, k, offset)
    ensures forall x <- From(rs, k, offset) :: x >= rs[k].first + offset
  {
    hide Indices;
    assert Covered(rs, rs[k].first + offset);
  }

  lemma FromNext(rs: seq<Range>, k: nat, offset: nat)
    requires Sorted(rs) && k < |rs| && rs[k].first + offset < rs[k].second
    ensures var rest := From(rs, k, offset) - {rs[k].first + offset};
            if rs[k].first + offset + 1 == rs[k].second then rest == From(rs, k + 1, 0)
                else rest == From(rs, k, offset + 1)
  {
    hide Indices;
    var x := rs[k].first + offset;
    if x + 1 == rs[k].second {
      forall y | y in From(rs, k, offset) && y != x ensures k + 1 < |rs| && y >= rs[k + 1].first {
        var i :| 0 <= i < |rs| && rs[i].first <= y < rs[i].second;
        assert i > k;
      }
    }
  }
}
