/**
 Two index sets gone through side by side: what is known of an index when some members of the
 other set have been passed.
 */
module BulkEdits {
  import opened IndexAlgebra
  import opened IndexRanges

  /** Of `b` the members below `cut` have been passed, `rest` remains, and `shift` counts the former. */
  ghost predicate Passing(b: set<nat>, rest: set<nat>, cut: nat, shift: nat) {
    && (forall x :: x in rest <==> x in b && x >= cut)
    && shift == CountBelow(b, cut)
  }

  lemma {:induction false} CountFlat(b: set<nat>, lo: nat, hi: nat)
    requires lo <= hi && forall x <- b :: !(lo <= x < hi)
    ensures CountBelow(b, hi) == CountBelow(b, lo)
  {
    if lo < hi {
      CountFlat(b, lo, hi - 1);
    }
  }

  lemma PassOne(b: set<nat>, rest: set<nat>, cut: nat, shift: nat, x: nat)
    requires Passing(b, rest, cut, shift) && x in rest && forall y <- rest :: y >= x
    ensures Passing(b, rest - {x}, x + 1, shift + 1)
  {
    CountFlat(b, cut, x);
  }

  lemma ShiftHere(b: set<nat>, rest: set<nat>, cut: nat, shift: nat, x: nat)
    requires Passing(b, rest, cut, shift) && cut <= x + shift && forall y <- rest :: x + shift < y
    ensures Shift(b, x) == x + shift
  {
    CountFlat(b, cut, x + shift);
    ShiftUnshift(b, x + shift);
  }

  lemma UnshiftHere(b: set<nat>, rest: set<nat>, cut: nat, shift: nat, x: nat)
    requires Passing(b, rest, cut, shift) && cut <= x && forall y <- rest :: x < y
    ensures x !in b && Unshift(b, x) == x - shift
  {
    CountFlat(b, cut, x);
  }

  // ---------------------------------------------------------------------------
  // Inserting and shifting

  /** `rest` of `a` is above what has been done. */
  ghost predicate Upper(a: set<nat>, rest: set<nat>) {
    rest <= a && forall x, y :: x in a && x !in rest && y in rest ==> x < y
  }

  lemma UpperNext(a: set<nat>, rest: set<nat>, x: nat)
    requires Upper(a, rest) && x in rest && forall y <- rest :: y >= x
    ensures Upper(a, rest - {x})
  {
  }

  lemma ShiftAllNext(a: set<nat>, rest: set<nat>, b: set<nat>, x: nat)
    requires Upper(a, rest) && x in rest && forall y <- rest :: y >= x
    ensures ShiftAll(a - (rest - {x}), b) == ShiftAll(a - rest, b) + {Shift(b, x)}
    ensures forall m <- ShiftAll(a - rest, b) :: m < Shift(b, x)
  {
    hide Shift;
    assert a - (rest - {x}) == (a - rest) + {x};
    forall m | m in ShiftAll(a - rest, b) ensures m < Shift(b, x) {
      var y :| y in a - rest && m == Shift(b, y);
      ShiftStrict(b, y, x);
    }
  }

  /** `restA` of `a` and `restB` of `b` remain; what remains of `a` lies beyond what was passed of `b`. */
  ghost predicate Weaving(a: set<nat>, restA: set<nat>, b: set<nat>, restB: set<nat>, cut: nat, shift: nat) {
    && Upper(a, restA) && restB <= b
    && Passing(b, restB, cut, shift)
    && forall x <- restA :: cut <= x + shift
  }

  /** What has been made of the part that is done. */
  ghost function Woven(a: set<nat>, restA: set<nat>, b: set<nat>, restB: set<nat>): set<nat> {
    ShiftAll(a - restA, b) + (b - restB)
  }

  lemma TakeFirst(a: set<nat>, restA: set<nat>, b: set<nat>, restB: set<nat>, cut: nat, shift: nat, x: nat)
    requires Weaving(a, restA, b, restB, cut, shift)
    requires x in restA && (forall y <- restA :: y >= x) && forall y <- restB :: x + shift < y
    ensures Weaving(a, restA - {x}, b, restB, cut, shift)
    ensures forall m <- Woven(a, restA, b, restB) :: m < x + shift
    ensures Woven(a, restA - {x}, b, restB) == Woven(a, restA, b, restB) + {x + shift}
    ensures forall m <- ShiftAll(a - restA, b) :: m < x + shift
    ensures ShiftAll(a - (restA - {x}), b) == ShiftAll(a - restA, b) + {x + shift}
  {
    hide ShiftAll, CountBelow;
    ShiftHere(b, restB, cut, shift, x);
    ShiftAllNext(a, restA, b, x);
    UpperNext(a, restA, x);
  }

  lemma TakeSecond(a: set<nat>, restA: set<nat>, b: set<nat>, restB: set<nat>, cut: nat, shift: nat, y: nat)
    requires Weaving(a, restA, b, restB, cut, shift)
    requires y in restB && (forall z <- restB :: z >= y) && forall x <- restA :: x + shift >= y
    ensures Weaving(a, restA, b, restB - {y}, y + 1, shift + 1)
    ensures Woven(a, restA, b, restB - {y}) == Woven(a, restA, b, restB) + {y}
  {
    hide ShiftAll, CountBelow;
    PassOne(b, restB, cut, shift, y);
  }

  lemma ShiftNone(b: set<nat>)
    ensures ShiftAll({}, b) == {}
  {
  }

  lemma WeavingStarts(a: set<nat>, b: set<nat>)
    ensures Weaving(a, a, b, b, 0, 0) && Woven(a, a, b, b) == {}
  {
  }

  // ---------------------------------------------------------------------------
  // Erasing

  lemma EraseAllNext(a: set<nat>, rest: set<nat>, b: set<nat>, x: nat)
    requires Upper(a, rest) && x in rest && forall y <- rest :: y >= x
    ensures EraseAll(a - (rest - {x}), b) == EraseAll(a - rest, b) + if x in b then {} else {Unshift(b, x)}
    ensures forall m <- EraseAll(a - rest, b) :: m < Unshift(b, x)
  {
    hide Unshift;
    assert a - (rest - {x}) == (a - rest) + {x};
    forall m | m in EraseAll(a - rest, b) ensures m < Unshift(b, x) {
      var y :| y in a - rest && y !in b && m == Unshift(b, y);
      UnshiftMonotone(b, y, x);
    }
  }

  /** As `Weaving`, when the members of `b` are erased: what remains of `a` is not below the cut. */
  ghost predicate Sieving(a: set<nat>, restA: set<nat>, b: set<nat>, restB: set<nat>, cut: nat, shift: nat) {
    && Upper(a, restA) && restB <= b
    && Passing(b, restB, cut, shift)
    && forall x <- restA :: cut <= x
  }

  lemma KeepFirst(a: set<nat>, restA: set<nat>, b: set<nat>, restB: set<nat>, cut: nat, shift: nat, x: nat)
    requires Sieving(a, restA, b, restB, cut, shift)
    requires x in restA && (forall y <- restA :: y >= x) && forall y <- restB :: x < y
    ensures Sieving(a, restA - {x}, b, restB, cut, shift) && x >= shift
    ensures forall m <- EraseAll(a - restA, b) :: m < x - shift
    ensures EraseAll(a - (restA - {x}), b) == EraseAll(a - restA, b) + {x - shift}
  {
    hide EraseAll, CountBelow;
    UnshiftHere(b, restB, cut, shift, x);
    EraseAllNext(a, restA, b, x);
    UpperNext(a, restA, x);
  }

  lemma DropFirst(a: set<nat>, restA: set<nat>, b: set<nat>, restB: set<nat>, cut: nat, shift: nat, x: nat)
    requires Sieving(a, restA, b, restB, cut, shift)
    requires x in restA && x in restB && (forall y <- restA :: y >= x) && forall y <- restB :: y >= x
    ensures Sieving(a, restA - {x}, b, restB - {x}, x + 1, shift + 1)
    ensures EraseAll(a - (restA - {x}), b) == EraseAll(a - restA, b)
  {
    hide EraseAll, CountBelow;
    PassOne(b, restB, cut, shift, x);
    EraseAllNext(a, restA, b, x);
    UpperNext(a, restA, x);
  }

  lemma PassSecond(a: set<nat>, restA: set<nat>, b: set<nat>, restB: set<nat>, cut: nat, shift: nat, y: nat)
    requires Sieving(a, restA, b, restB, cut, shift)
    requires y in restB && (forall z <- restB :: z >= y) && forall x <- restA :: x > y
    ensures Sieving(a, restA, b, restB - {y}, y + 1, shift + 1)
  {
    PassOne(b, restB, cut, shift, y);
  }

  lemma SievingStarts(a: set<nat>, b: set<nat>)
    ensures Sieving(a, a, b, b, 0, 0) && EraseAll(a - a, b) == {}
  {
  }

  /** Nothing to do. */
  lemma Trivially(a: set<nat>, b: set<nat>)
    ensures b == {} ==> InsertAll(a, b) == ShiftAll(a, b) == EraseAll(a, b) == a
    ensures a == {} ==> InsertAll(a, b) == b && ShiftAll(a, b) == EraseAll(a, b) == {}
  {
    EraseNothing(a);
  }

  /** Positions beyond every member do not move any. */
  lemma ShiftBeyond(a: set<nat>, b: set<nat>)
    requires forall x <- a, y <- b :: x < y
    ensures ShiftAll(a, b) == a
  {
    forall x | x in a ensures Shift(b, x) == x {
      CountNone(b, x);
      ShiftUnshift(b, x);
    }
  }

  // ---------------------------------------------------------------------------
  // Adding what another change deletes

  lemma AddShiftedNext(s: set<nat>, moved: set<nat>, values: set<nat>, rest: set<nat>, x: nat)
    requires Upper(values, rest) && x in rest && forall y <- rest :: y >= x
    ensures Brought(s, moved, values - (rest - {x})) ==
              Brought(s, moved, values - rest) + if x in moved then {} else {Survive(moved, s, x)}
    ensures x !in moved ==> forall m <- Brought(s, moved, values - rest) :: m < Survive(moved, s, x)
  {
    hide Survive;
    assert values - (rest - {x}) == (values - rest) + {x};
    if x !in moved {
      forall m | m in Brought(s, moved, values - rest) ensures m < Survive(moved, s, x) {
        var y :| y in values - rest && y !in moved && m == Survive(moved, s, y);
        SurviveMonotone(moved, s, y, x);
      }
    }
  }

  /** The values in the numbering of `s`. */
  ghost function Brought(s: set<nat>, moved: set<nat>, values: set<nat>): set<nat> {
    set x | x in values && x !in moved :: Survive(moved, s, x)
  }

  lemma BroughtNone(s: set<nat>, moved: set<nat>)
    ensures Brought(s, moved, {}) == {}
  {
  }
}
