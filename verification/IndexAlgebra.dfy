/**
 The mathematics behind an index set: a finite set of naturals together with
 the order-preserving correspondence between the naturals and its complement.

 `Unshift` closes the gaps that the members leave, `Shift` opens them again.
 A pair of sets (deleted, inserted) then carries every position that is not
 deleted to a position that is not inserted; `Survive` is that map.
 */
module IndexAlgebra {

  /** How many members lie strictly below `n`. */
  function CountBelow(s: set<nat>, n: nat): (c: nat)
    ensures c <= n
  {
    if n == 0 then 0 else CountBelow(s, n - 1) + if n - 1 in s then 1 else 0
  }

  /** The position of `i` once every member below it has been removed. */
  function Unshift(s: set<nat>, i: nat): nat {
    i - CountBelow(s, i)
  }

  /** The non-member that has exactly `rank` non-members in `[at, r)`. */
  function ShiftFrom(s: set<nat>, at: nat, rank: nat): (r: nat)
    ensures r >= at && r !in s
    ensures Unshift(s, r) == Unshift(s, at) + rank
    decreases rank, |set x | x in s && x >= at|
  {
    if at in s then
      assert (set x | x in s && x >= at + 1) == (set x | x in s && x >= at) - {at};
      ShiftFrom(s, at + 1, rank)
    else if rank == 0 then at
    else ShiftFrom(s, at + 1, rank - 1)
  }

  /** The position of `i` once the members have been inserted: the `i`-th non-member. */
  function Shift(s: set<nat>, i: nat): (r: nat)
    ensures r !in s && Unshift(s, r) == i
  {
    ShiftFrom(s, 0, i)
  }

  lemma {:induction false} UnshiftMonotone(s: set<nat>, i: nat, j: nat)
    requires i <= j
    ensures Unshift(s, i) <= Unshift(s, j)
    ensures i < j && i !in s ==> Unshift(s, i) < Unshift(s, j)
    decreases j - i
  {
    if i < j {
      UnshiftMonotone(s, i + 1, j);
    }
  }

  lemma UnshiftInjective(s: set<nat>, i: nat, j: nat)
    requires i !in s && j !in s && Unshift(s, i) == Unshift(s, j)
    ensures i == j
  {
    if i < j {
      UnshiftMonotone(s, i, j);
    } else {
      UnshiftMonotone(s, j, i);
    }
  }

  /** `Shift` and `Unshift` are mutually inverse between the naturals and the non-members. */
  lemma ShiftUnshift(s: set<nat>, i: nat)
    requires i !in s
    ensures Shift(s, Unshift(s, i)) == i
  {
    UnshiftInjective(s, Shift(s, Unshift(s, i)), i);
  }

  lemma ShiftStrict(s: set<nat>, i: nat, j: nat)
    requires i < j
    ensures Shift(s, i) < Shift(s, j)
  {
    if Shift(s, j) <= Shift(s, i) {
      UnshiftMonotone(s, Shift(s, j), Shift(s, i));
    }
  }

  /** Where a position that is not deleted ends up. */
  function Survive(deleted: set<nat>, inserted: set<nat>, i: nat): (j: nat)
    ensures j !in inserted
    ensures Unshift(inserted, j) == Unshift(deleted, i)
  {
    Shift(inserted, Unshift(deleted, i))
  }

  lemma SurviveInverse(deleted: set<nat>, inserted: set<nat>, i: nat)
    requires i !in deleted
    ensures Survive(inserted, deleted, Survive(deleted, inserted, i)) == i
  {
    ShiftUnshift(deleted, i);
  }

  lemma SurviveMonotone(deleted: set<nat>, inserted: set<nat>, i: nat, j: nat)
    requires i < j && i !in deleted
    ensures Survive(deleted, inserted, i) < Survive(deleted, inserted, j)
  {
    UnshiftMonotone(deleted, i, j);
    ShiftStrict(inserted, Unshift(deleted, i), Unshift(deleted, j));
  }

  /** The survivor map is the only map that respects ranks. */
  lemma SurviveUnique(deleted: set<nat>, inserted: set<nat>, i: nat, j: nat)
    requires j !in inserted && Unshift(inserted, j) == Unshift(deleted, i)
    ensures Survive(deleted, inserted, i) == j
  {
    ShiftUnshift(inserted, j);
  }

  // ---------------------------------------------------------------------------
  // Two changes in a row

  /** Deletions, in the first numbering, of a change followed by another. */
  function ComposeDeletions(d1: set<nat>, i1: set<nat>, d2: set<nat>): set<nat> {
    AddShiftedBy(d1, i1, d2)
  }

  /** Insertions, in the last numbering, of a change followed by another. */
  function ComposeInsertions(i1: set<nat>, d2: set<nat>, i2: set<nat>): set<nat> {
    InsertAll(EraseAll(i1, d2), i2)
  }

  function ShiftAll(s: set<nat>, positions: set<nat>): set<nat> {
    set x | x in s :: Shift(positions, x)
  }

  function InsertAll(s: set<nat>, positions: set<nat>): set<nat> {
    ShiftAll(s, positions) + positions
  }

  function EraseAll(s: set<nat>, positions: set<nat>): set<nat> {
    set x | x in s && x !in positions :: Unshift(positions, x)
  }

  function AddShiftedBy(s: set<nat>, shiftedBy: set<nat>, values: set<nat>): set<nat> {
    s + set x | x in values && x !in shiftedBy :: Survive(shiftedBy, s, x)
  }

  lemma ComposeDeletionsMember(d1: set<nat>, i1: set<nat>, d2: set<nat>, i: nat)
    ensures i in ComposeDeletions(d1, i1, d2) <==> i in d1 || Survive(d1, i1, i) in d2
  {
    if i !in d1 {
      var j := Survive(d1, i1, i);
      SurviveInverse(d1, i1, i);
      if i in ComposeDeletions(d1, i1, d2) {
        var x :| x in d2 && x !in i1 && i == Survive(i1, d1, x);
        SurviveInverse(i1, d1, x);
      }
    }
  }

  lemma ComposeInsertionsMember(i1: set<nat>, d2: set<nat>, i2: set<nat>, k: nat)
    ensures k in ComposeInsertions(i1, d2, i2) <==> k in i2 || Survive(i2, d2, k) in i1
  {
    if k !in i2 {
      var j := Survive(i2, d2, k);
      SurviveInverse(i2, d2, k);
      if k in ComposeInsertions(i1, d2, i2) {
        var y :| y in EraseAll(i1, d2) && k == Shift(i2, y);
        var x :| x in i1 && x !in d2 && y == Unshift(d2, x);
        SurviveInverse(d2, i2, x);
      }
      if j in i1 {
        assert Unshift(d2, j) in EraseAll(i1, d2);
        assert k == Shift(i2, Unshift(d2, j));
      }
    }
  }

  /** A position survives both changes and where: the composed sets' own survivor map. */
  lemma {:induction false} ComposeSurvive(d1: set<nat>, i1: set<nat>, d2: set<nat>, i2: set<nat>, i: nat)
    requires i !in ComposeDeletions(d1, i1, d2)
    ensures Survive(ComposeDeletions(d1, i1, d2), ComposeInsertions(i1, d2, i2), i)
         == Survive(d2, i2, Survive(d1, i1, i))
  {
    var d, n := ComposeDeletions(d1, i1, d2), ComposeInsertions(i1, d2, i2);
    ComposeRank(d1, i1, d2, i2, Unshift(d, i));
    ShiftUnshift(d, i);
  }

  /** The composition sends the survivor of rank `r` to the non-inserted position of rank `r`. */
  lemma {:induction false} ComposeRank(d1: set<nat>, i1: set<nat>, d2: set<nat>, i2: set<nat>, r: nat)
    ensures Survive(d2, i2, Survive(d1, i1, Shift(ComposeDeletions(d1, i1, d2), r)))
         == Shift(ComposeInsertions(i1, d2, i2), r)
    decreases r
  {
    var d, n := ComposeDeletions(d1, i1, d2), ComposeInsertions(i1, d2, i2);
    var i := Shift(d, r);
    var k := Survive(d2, i2, Survive(d1, i1, i));
    ComposeForward(d1, i1, d2, i2, i);
    var q := Unshift(n, k);
    ShiftUnshift(n, k);
    if q < r {
      ComposeRank(d1, i1, d2, i2, q);
      ComposeForward(d1, i1, d2, i2, Shift(d, q));
    } else if q > r {
      // The position of rank r comes from an earlier survivor, hence from one of rank r' < r.
      var k' := Shift(n, r);
      ShiftStrict(n, r, q);
      var i' := Survive(i1, d1, Survive(i2, d2, k'));
      ComposeBackward(d1, i1, d2, i2, k');
      if i <= i' {
        ComposeMonotone(d1, i1, d2, i2, i, i');
      } else {
        UnshiftMonotone(d, i', i);
        ComposeRank(d1, i1, d2, i2, Unshift(d, i'));
        ShiftUnshift(d, i');
      }
    }
  }

  lemma ComposeForward(d1: set<nat>, i1: set<nat>, d2: set<nat>, i2: set<nat>, i: nat)
    requires i !in ComposeDeletions(d1, i1, d2)
    ensures var k := Survive(d2, i2, Survive(d1, i1, i));
            k !in ComposeInsertions(i1, d2, i2) && Survive(i1, d1, Survive(i2, d2, k)) == i
  {
    var j := Survive(d1, i1, i);
    ComposeDeletionsMember(d1, i1, d2, i);
    SurviveInverse(d1, i1, i);
    SurviveInverse(d2, i2, j);
    ComposeInsertionsMember(i1, d2, i2, Survive(d2, i2, j));
  }

  lemma ComposeBackward(d1: set<nat>, i1: set<nat>, d2: set<nat>, i2: set<nat>, k: nat)
    requires k !in ComposeInsertions(i1, d2, i2)
    ensures var i := Survive(i1, d1, Survive(i2, d2, k));
            i !in ComposeDeletions(d1, i1, d2) && Survive(d2, i2, Survive(d1, i1, i)) == k
  {
    var j := Survive(i2, d2, k);
    ComposeInsertionsMember(i1, d2, i2, k);
    SurviveInverse(i2, d2, k);
    SurviveInverse(i1, d1, j);
    ComposeDeletionsMember(d1, i1, d2, Survive(i1, d1, j));
  }

  lemma ComposeMonotone(d1: set<nat>, i1: set<nat>, d2: set<nat>, i2: set<nat>, i: nat, i': nat)
    requires i <= i' && i !in ComposeDeletions(d1, i1, d2)
    ensures Survive(d2, i2, Survive(d1, i1, i)) <= Survive(d2, i2, Survive(d1, i1, i'))
  {
    ComposeDeletionsMember(d1, i1, d2, i);
    if i < i' {
      SurviveMonotone(d1, i1, i, i');
      SurviveMonotone(d2, i2, Survive(d1, i1, i), Survive(d1, i1, i'));
    }
  }

  // ---------------------------------------------------------------------------
  // Operations at one position

  function Interval(lo: nat, hi: nat): (s: set<nat>)
    ensures forall x :: x in s <==> lo <= x < hi
  {
    if lo >= hi then {} else Interval(lo, hi - 1) + {hi - 1}
  }

  /** Open a gap of `count` at `index`. */
  function ShiftForInsertAt(s: set<nat>, index: nat, count: nat): set<nat> {
    set x | x in s :: if x < index then x else x + count
  }

  /** Open a gap of `count` at `index` and fill it. */
  function InsertAt(s: set<nat>, index: nat, count: nat): set<nat> {
    ShiftForInsertAt(s, index, count) + Interval(index, index + count)
  }

  /** Remove `index` and close the gap. */
  function EraseAt(s: set<nat>, index: nat): set<nat> {
    set x | x in s && x != index :: if x < index then x else x - 1
  }

  lemma {:induction false} CountInterval(lo: nat, hi: nat, n: nat)
    requires lo <= hi
    ensures CountBelow(Interval(lo, hi), n) == if n < lo then 0 else if n < hi then n - lo else hi - lo
  {
    if n > 0 {
      CountInterval(lo, hi, n - 1);
    }
  }

  lemma ShiftInterval(lo: nat, hi: nat, x: nat)
    requires lo <= hi
    ensures Shift(Interval(lo, hi), x) == if x < lo then x else x + (hi - lo)
  {
    var y := if x < lo then x else x + (hi - lo);
    CountInterval(lo, hi, y);
    UnshiftInjective(Interval(lo, hi), Shift(Interval(lo, hi), x), y);
  }

  lemma SurviveErase(index: nat, x: nat)
    ensures Unshift({index}, x) == Unshift(Interval(index, index + 1), x) == if x <= index then x else x - 1
  {
    assert {index} == Interval(index, index + 1);
    CountInterval(index, index + 1, x);
  }

  /** Inserting a run of positions is the bulk insertion of that run. */
  lemma InsertAtIsBulk(s: set<nat>, index: nat, count: nat)
    ensures ShiftForInsertAt(s, index, count) == ShiftAll(s, Interval(index, index + count))
    ensures InsertAt(s, index, count) == InsertAll(s, Interval(index, index + count))
  {
    forall x | x in s {
      ShiftInterval(index, index + count, x);
    }
  }

  /** Erasing one position is the bulk erasure of that position. */
  lemma EraseAtIsBulk(s: set<nat>, index: nat)
    ensures EraseAt(s, index) == EraseAll(s, {index})
  {
    forall x | x in s {
      SurviveErase(index, x);
    }
  }

  lemma EmptyIsIdentity(x: nat)
    ensures Unshift({}, x) == x && Shift({}, x) == x && Survive({}, {}, x) == x
  {
    assert Interval(0, 0) == {};
    CountInterval(0, 0, x);
    ShiftInterval(0, 0, x);
  }

  lemma EraseNothing(s: set<nat>)
    ensures EraseAll(s, {}) == s && ShiftAll(s, {}) == s
  {
    forall x | x in s
      ensures x in EraseAll(s, {}) && x in ShiftAll(s, {})
    {
      EmptyIsIdentity(x);
    }
    forall x | x in EraseAll(s, {}) ensures x in s {
      var y :| y in s && x == Unshift({}, y);
      EmptyIsIdentity(y);
    }
    forall x | x in ShiftAll(s, {}) ensures x in s {
      var y :| y in s && x == Shift({}, y);
      EmptyIsIdentity(y);
    }
  }

  lemma {:induction false} CountBelowSame(s: set<nat>, t: set<nat>, n: nat)
    requires forall x :: x < n ==> (x in s <==> x in t)
    ensures CountBelow(s, n) == CountBelow(t, n)
  {
    if n > 0 {
      CountBelowSame(s, t, n - 1);
    }
  }

  lemma {:induction false} CountBelowAll(s: set<nat>, n: nat)
    requires forall x <- s :: x < n
    ensures CountBelow(s, n) == |s|
  {
    if n > 0 {
      var last := n - 1;
      CountBelowSame(s, s - {last}, last);
      CountBelowAll(s - {last}, last);
    }
  }
}
