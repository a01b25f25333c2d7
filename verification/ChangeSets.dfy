/**
 A collection changeset and what it means.

 `Linked(c, i, j)` says that the changeset `c` presents the element at `i` of the
 old collection and the element at `j` of the new one as the same element: either
 it survived in order, or it is reported as a move.  Every claim about changesets
 is stated through this relation.
 */
module ChangeSets {
  import opened IndexAlgebra

  datatype Move = Move(from: nat, to: nat)

  datatype Changes = Changes(
    deletions: set<nat>,
    insertions: set<nat>,
    modifications: set<nat>,
    moves: seq<Move>)

  const NO_CHANGES := Changes({}, {}, {}, [])

  ghost predicate Linked(c: Changes, i: nat, j: nat) {
    || (i !in c.deletions && j == Survive(c.deletions, c.insertions, i))
    || Move(i, j) in c.moves
  }

  ghost predicate WellFormed(c: Changes) {
    && (forall m <- c.moves :: m.from in c.deletions && m.to in c.insertions)
    && (forall x, y :: 0 <= x < y < |c.moves| ==>
          c.moves[x].from != c.moves[y].from && c.moves[x].to != c.moves[y].to)
  }

  /** The changeset is about collections of size `before` and `after`.  The end position survives too. */
  ghost predicate Fits(c: Changes, before: nat, after: nat) {
    && (forall d <- c.deletions :: d < before)
    && (forall x <- c.insertions :: x < after)
    && Survive(c.deletions, c.insertions, before) == after
  }

  /** Every pair that the changeset links holds the same element. */
  ghost predicate Describes<T(!new)>(c: Changes, before: seq<T>, after: seq<T>) {
    && Fits(c, |before|, |after|)
    && forall i: nat, j: nat :: i < |before| && Linked(c, i, j) ==> j < |after| && before[i] == after[j]
  }

  /** `s` without the elements at the given positions. */
  function Without<T>(s: seq<T>, positions: set<nat>): seq<T> {
    if s == [] then [] else
      var last := |s| - 1;
      Without(s[..last], positions) + if last in positions then [] else [s[last]]
  }

  // ---------------------------------------------------------------------------

  /** No position is linked twice, on either side. */
  lemma LinkedInjective(c: Changes, i: nat, j: nat, i': nat, j': nat)
    requires WellFormed(c) && Linked(c, i, j) && Linked(c, i', j')
    ensures i == i' <==> j == j'
  {
    if i !in c.deletions && i' !in c.deletions {
      SurviveInverse(c.deletions, c.insertions, i);
      SurviveInverse(c.deletions, c.insertions, i');
    }
  }

  lemma {:induction false} WithoutAt<T>(s: seq<T>, positions: set<nat>, i: nat)
    requires i <= |s|
    ensures |Without(s, positions)| == Unshift(positions, |s|)
    ensures Unshift(positions, i) <= Unshift(positions, |s|)
    ensures i < |s| && i !in positions ==>
              && Unshift(positions, i) < Unshift(positions, |s|)
              && Without(s, positions)[Unshift(positions, i)] == s[i]
    decreases |s|
  {
    UnshiftMonotone(positions, i, |s|);
    if s != [] {
      var last := |s| - 1;
      WithoutAt(s[..last], positions, if i < last then i else last);
      UnshiftMonotone(positions, i, |s|);
    }
  }

  /** What a changeset means: dropping the deletions from the old collection and the
      insertions from the new one leaves the same elements in the same order. */
  lemma DescribesWithout<T(!new)>(c: Changes, before: seq<T>, after: seq<T>)
    requires Describes(c, before, after)
    ensures Without(before, c.deletions) == Without(after, c.insertions)
  {
    var b, a := Without(before, c.deletions), Without(after, c.insertions);
    WithoutAt(before, c.deletions, |before|);
    WithoutAt(after, c.insertions, |after|);
    forall r | 0 <= r < |b|
      ensures b[r] == a[r]
    {
      var i := Shift(c.deletions, r);
      if i >= |before| {
        UnshiftMonotone(c.deletions, |before|, i);
      }
      var j := Survive(c.deletions, c.insertions, i);
      assert Linked(c, i, j);
      WithoutAt(before, c.deletions, i);
      WithoutAt(after, c.insertions, j);
    }
  }

  /** The elements from `k` on that are not at the given positions. */
  ghost function WithoutFrom<T>(s: seq<T>, positions: set<nat>, k: nat): seq<T>
    requires k <= |s|
    decreases |s| - k
  {
    if k == |s| then [] else (if k in positions then [] else [s[k]]) + WithoutFrom(s, positions, k + 1)
  }

  lemma WithoutNext<T>(s: seq<T>, positions: set<nat>, k: nat)
    requires k < |s|
    ensures Without(s[..k + 1], positions) == Without(s[..k], positions) + if k in positions then [] else [s[k]]
  {
    assert s[..k + 1][..k] == s[..k];
  }

  lemma {:induction false} WithoutInParts<T>(s: seq<T>, positions: set<nat>, k: nat)
    requires k <= |s|
    ensures Without(s[..k], positions) + WithoutFrom(s, positions, k) == Without(s, positions)
    decreases |s| - k
  {
    hide Without;
    if k == |s| {
      assert s[..k] == s;
    } else {
      WithoutInParts(s, positions, k + 1);
      WithoutNext(s, positions, k);
      var here := if k in positions then [] else [s[k]];
      Reassociate(Without(s[..k], positions), here, WithoutFrom(s, positions, k + 1));
    }
  }

  lemma Reassociate<T>(a: seq<T>, b: seq<T>, c: seq<T>)
    ensures a + (b + c) == (a + b) + c
  {
  }

  lemma WithoutFromStart<T>(s: seq<T>, positions: set<nat>)
    ensures WithoutFrom(s, positions, 0) == Without(s, positions)
  {
    WithoutInParts(s, positions, 0);
    assert s[..0] == [];
  }

  lemma InAndOut<T>(a: seq<T>, v: T, b: seq<T>)
    ensures (a + [v] + b)[..|a|] + (a + [v] + b)[|a| + 1..] == a + b
    ensures (a + b)[..|a|] + [v] + (a + b)[|a|..] == a + [v] + b == a + ([v] + b)
  {
  }

  /** Erase from the back. */
  method EraseRows<T>(before: seq<T>, deletions: set<nat>) returns (rows: seq<T>)
    ensures rows == Without(before, deletions)
  {
    hide Without;
    rows := before;
    var k := |before|;
    while k > 0
      invariant 0 <= k <= |before| && rows == before[..k] + WithoutFrom(before, deletions, k)
    {
      k := k - 1;
      assert before[..k + 1] == before[..k] + [before[k]];
      InAndOut(before[..k], before[k], WithoutFrom(before, deletions, k + 1));
      if k in deletions {
        rows := rows[..k] + rows[k + 1..];
      }
    }
    WithoutFromStart(before, deletions);
  }

  /** Carrying out a changeset, erasing from the back and then inserting from the front, gives the
      new collection. */
  method VerifyChangeset<T(!new)>(before: seq<T>, after: seq<T>, c: Changes) returns (rows: seq<T>)
    requires Describes(c, before, after)
    ensures rows == after
  {
    hide Describes, Without;
    rows := EraseRows(before, c.deletions);
    DescribesWithout(c, before, after);
    WithoutFromStart(after, c.insertions);
    for i := 0 to |after|
      invariant rows == after[..i] + WithoutFrom(after, c.insertions, i)
    {
      assert after[..i + 1] == after[..i] + [after[i]];
      InAndOut(after[..i], after[i], WithoutFrom(after, c.insertions, i + 1));
      if i in c.insertions {
        rows := rows[..i] + [after[i]] + rows[i..];
      }
    }
    assert after[..|after|] == after;
  }

  // ---------------------------------------------------------------------------
  // Composition

  /** `r` links exactly what `a` followed by `c` links. */
  ghost predicate Composed(a: Changes, c: Changes, r: Changes) {
    forall i, k :: Linked(r, i, k) <==> exists j :: Linked(a, i, j) && Linked(c, j, k)
  }

  /** The moves of a composition: an old move carried on, or a new move of a survivor. */
  ghost predicate MovesComposed(a: Changes, c: Changes, moves: seq<Move>) {
    && (forall x, y :: 0 <= x < y < |moves| ==> moves[x] != moves[y])
    && forall f, k :: Move(f, k) in moves <==>
         || (exists t :: Move(f, t) in a.moves && Linked(c, t, k))
         || (f !in a.deletions && Move(Survive(a.deletions, a.insertions, f), k) in c.moves)
  }

  ghost predicate ComposedParts(a: Changes, c: Changes, r: Changes) {
    && r.deletions == ComposeDeletions(a.deletions, a.insertions, c.deletions)
    && r.insertions == ComposeInsertions(a.insertions, c.deletions, c.insertions)
    && MovesComposed(a, c, r.moves)
  }

  lemma ComposeLinks(a: Changes, c: Changes, r: Changes)
    requires WellFormed(a) && WellFormed(c) && ComposedParts(a, c, r)
    ensures Composed(a, c, r)
  {
    forall i, k
      ensures Linked(r, i, k) <==> exists j :: Linked(a, i, j) && Linked(c, j, k)
    {
      var j := Survive(a.deletions, a.insertions, i);
      ComposeDeletionsMember(a.deletions, a.insertions, c.deletions, i);
      if i !in r.deletions {
        ComposeSurvive(a.deletions, a.insertions, c.deletions, c.insertions, i);
      }
      if Linked(r, i, k) {
        if i !in a.deletions {
          assert Linked(a, i, j) && Linked(c, j, k);
        } else {
          var t :| Move(i, t) in a.moves && Linked(c, t, k);
          assert Linked(a, i, t);
        }
      }
    }
  }

  lemma ComposeWellFormed(a: Changes, c: Changes, r: Changes)
    requires WellFormed(a) && WellFormed(c) && ComposedParts(a, c, r)
    ensures WellFormed(r)
  {
    ComposeLinks(a, c, r);
    forall m | m in r.moves
      ensures m.from in r.deletions && m.to in r.insertions
    {
      ComposeMoveEnds(a, c, r, m);
    }
    forall x, y | 0 <= x < y < |r.moves|
      ensures r.moves[x].from != r.moves[y].from && r.moves[x].to != r.moves[y].to
    {
      var m, n := r.moves[x], r.moves[y];
      assert Move(m.from, m.to) in r.moves && Move(n.from, n.to) in r.moves;
      assert Linked(r, m.from, m.to) && Linked(r, n.from, n.to);
      var j :| Linked(a, m.from, j) && Linked(c, j, m.to);
      var j' :| Linked(a, n.from, j') && Linked(c, j', n.to);
      LinkedInjective(a, m.from, j, n.from, j');
      LinkedInjective(c, j, m.to, j', n.to);
    }
  }

  lemma ComposeMoveEnds(a: Changes, c: Changes, r: Changes, m: Move)
    requires WellFormed(a) && WellFormed(c) && ComposedParts(a, c, r) && m in r.moves
    ensures m.from in r.deletions && m.to in r.insertions
  {
    assert Move(m.from, m.to) in r.moves;
    ComposeDeletionsMember(a.deletions, a.insertions, c.deletions, m.from);
    ComposeInsertionsMember(a.insertions, c.deletions, c.insertions, m.to);
    if m.from in a.deletions {
      var t :| Move(m.from, t) in a.moves && Linked(c, t, m.to);
      if t !in c.deletions {
        SurviveInverse(c.deletions, c.insertions, t);
      }
    }
  }

  lemma ComposeFits(a: Changes, c: Changes, r: Changes, n0: nat, n1: nat, n2: nat)
    requires Fits(a, n0, n1) && Fits(c, n1, n2)
    requires r.deletions == ComposeDeletions(a.deletions, a.insertions, c.deletions)
    requires r.insertions == ComposeInsertions(a.insertions, c.deletions, c.insertions)
    ensures Fits(r, n0, n2)
  {
    forall d | d in r.deletions
      ensures d < n0
    {
      ComposeDeletionsMember(a.deletions, a.insertions, c.deletions, d);
      if d > n0 {
        SurviveMonotone(a.deletions, a.insertions, n0, d);
      }
    }
    forall x | x in r.insertions
      ensures x < n2
    {
      ComposeInsertionsMember(a.insertions, c.deletions, c.insertions, x);
      SurviveInverse(c.deletions, c.insertions, n1);
      if x > n2 {
        SurviveMonotone(c.insertions, c.deletions, n2, x);
      }
    }
    ComposeDeletionsMember(a.deletions, a.insertions, c.deletions, n0);
    ComposeSurvive(a.deletions, a.insertions, c.deletions, c.insertions, n0);
  }

  /** Composition is sound: links through a middle collection carry elements along. */
  lemma ComposeDescribes<T(!new)>(a: Changes, c: Changes, r: Changes, s0: seq<T>, s1: seq<T>, s2: seq<T>)
    requires Describes(a, s0, s1) && Describes(c, s1, s2)
    requires Composed(a, c, r) && Fits(r, |s0|, |s2|)
    ensures Describes(r, s0, s2)
  {
    forall i: nat, k: nat | i < |s0| && Linked(r, i, k)
      ensures k < |s2| && s0[i] == s2[k]
    {
      var j :| Linked(a, i, j) && Linked(c, j, k);
    }
  }

  // ---------------------------------------------------------------------------
  // Sizes

  /** The old size is the new size plus the deletions minus the insertions. */
  lemma FitsSize(c: Changes, before: nat, after: nat)
    requires Fits(c, before, after)
    ensures before + |c.insertions| == after + |c.deletions|
  {
    CountBelowAll(c.deletions, before);
    CountBelowAll(c.insertions, after);
  }
}
