/**
 The merge of two consecutive changesets is their composition: it links an old
 position with a final one exactly when the two halves link them through some
 position of the collection in between.
 */
module MergeTheorems {
  import opened IndexAlgebra
  import opened ChangeSets
  import opened Merging

  lemma {:induction false} OfOldRowsMembers(moves: seq<Move>, insertions: set<nat>)
    ensures forall m :: m in OfOldRows(moves, insertions) <==> m in moves && m.from !in insertions
    ensures DistinctFroms(moves) ==> DistinctFroms(OfOldRows(moves, insertions))
  {
    if moves != [] {
      OfOldRowsMembers(moves[1..], insertions);
      assert forall m :: m in moves <==> m == moves[0] || m in moves[1..];
      if DistinctFroms(moves) {
        assert forall m :: m in OfOldRows(moves[1..], insertions) ==> m.from != moves[0].from;
      }
    }
  }

  lemma RebaseMembers(moves: seq<Move>, a: Changes)
    requires forall m <- moves :: m.from !in a.insertions
    ensures forall f, k :: Move(f, k) in Rebase(moves, a)
              <==> f !in a.deletions && Move(Survive(a.deletions, a.insertions, f), k) in moves
    ensures DistinctFroms(moves) ==> DistinctFroms(Rebase(moves, a))
  {
    var r := Rebase(moves, a);
    forall f, k
      ensures Move(f, k) in r <==> f !in a.deletions && Move(Survive(a.deletions, a.insertions, f), k) in moves
    {
      if Move(f, k) in r {
        var x :| 0 <= x < |r| && r[x] == Move(f, k);
        assert moves[x] in moves;
        SurviveInverse(a.insertions, a.deletions, moves[x].from);
      }
      var j := Survive(a.deletions, a.insertions, f);
      if f !in a.deletions && Move(j, k) in moves {
        var x :| 0 <= x < |moves| && moves[x] == Move(j, k);
        SurviveInverse(a.deletions, a.insertions, f);
        assert r[x] == Move(f, k);
      }
    }
    if DistinctFroms(moves) {
      forall x, y | 0 <= x < y < |r|
        ensures r[x].from != r[y].from
      {
        assert moves[x] in moves && moves[y] in moves;
        SurviveInverse(a.insertions, a.deletions, moves[x].from);
        SurviveInverse(a.insertions, a.deletions, moves[y].from);
      }
    }
  }

  /** The new moves that the merge adds: those of rows that survived the old changeset. */
  function NewMoves(a: Changes, c: Changes): seq<Move> {
    OfOldRows(Redirect(a.moves, c.moves, c.modifications, a.modifications, c).rest, a.insertions)
  }

  lemma NewMovesMembers(a: Changes, c: Changes)
    requires WellFormed(a) && WellFormed(c)
    ensures DistinctFroms(NewMoves(a, c))
    ensures forall m :: m in NewMoves(a, c) <==> m in c.moves && m.from !in a.insertions
  {
    RedirectRest(a.moves, c.moves, c.modifications, a.modifications, c);
    OfOldRowsMembers(Redirect(a.moves, c.moves, c.modifications, a.modifications, c).rest, a.insertions);
  }

  lemma MergedMovesCompose(a: Changes, c: Changes)
    requires WellFormed(a) && WellFormed(c)
    ensures MovesComposed(a, c, MergedParts(a, c).moves)
  {
    var red := Redirect(a.moves, c.moves, c.modifications, a.modifications, c);
    var added := Rebase(NewMoves(a, c), a);
    var moves := red.kept + added;
    RedirectKeptFroms(a.moves, c.moves, c.modifications, a.modifications, c);
    NewMovesMembers(a, c);
    RebaseMembers(NewMoves(a, c), a);
    forall f, k
      ensures Move(f, k) in moves <==>
                || (exists t :: Move(f, t) in a.moves && Linked(c, t, k))
                || (f !in a.deletions && Move(Survive(a.deletions, a.insertions, f), k) in c.moves)
    {
      RedirectKept(a.moves, c.moves, c.modifications, a.modifications, c, f, k);
    }
    forall x, y | 0 <= x < y < |moves|
      ensures moves[x] != moves[y]
    {
      if x < |red.kept| <= y {
        assert moves[x] in red.kept && Move(moves[y].from, moves[y].to) in added;
      }
    }
  }

  lemma EmptyLinks(c: Changes, i: nat, j: nat)
    requires IsEmpty(c)
    ensures Linked(c, i, j) <==> i == j
  {
    EmptyIsIdentity(i);
  }

  /** Merging is composition, and it keeps every move's ends in the deletions and insertions. */
  lemma MergeComposes(a: Changes, c: Changes)
    requires WellFormed(a) && WellFormed(c)
    ensures WellFormed(Merged(a, c)) && Composed(a, c, Merged(a, c))
  {
    var r := Merged(a, c);
    if IsEmpty(c) {
      forall i, k ensures Linked(r, i, k) <==> exists j :: Linked(a, i, j) && Linked(c, j, k) {
        EmptyLinks(c, k, k);
        forall j { EmptyLinks(c, j, k); }
      }
    } else if IsEmpty(a) {
      forall i, k ensures Linked(r, i, k) <==> exists j :: Linked(a, i, j) && Linked(c, j, k) {
        EmptyLinks(a, i, i);
        forall j { EmptyLinks(a, i, j); }
      }
    } else {
      var parts := MergedParts(a, c);
      MergedMovesCompose(a, c);
      ComposeLinks(a, c, parts);
      ComposeWellFormed(a, c, parts);
      CleanMeaning(parts, 0);
      forall i, k ensures Linked(r, i, k) <==> Linked(parts, i, k) {
        assert Linked(parts, i, k) <==> Linked(Clean(parts), i, k);
      }
    }
  }

  lemma MergeFits(a: Changes, c: Changes, n0: nat, n1: nat, n2: nat)
    requires WellFormed(a) && WellFormed(c) && Fits(a, n0, n1) && Fits(c, n1, n2)
    ensures Fits(Merged(a, c), n0, n2)
  {
    if IsEmpty(c) {
      EmptyLinks(c, n1, n2);
    } else if IsEmpty(a) {
      EmptyLinks(a, n0, n1);
    } else {
      var parts := MergedParts(a, c);
      MergedMovesCompose(a, c);
      ComposeWellFormed(a, c, parts);
      ComposeFits(a, c, parts, n0, n1, n2);
      CleanMeaning(parts, 0);
    }
  }

  /** Merging a changeset from A to B with one from B to C gives one from A to C. */
  lemma MergeDescribes<T(!new)>(a: Changes, c: Changes, s0: seq<T>, s1: seq<T>, s2: seq<T>)
    requires WellFormed(a) && WellFormed(c) && Describes(a, s0, s1) && Describes(c, s1, s2)
    ensures WellFormed(Merged(a, c)) && Describes(Merged(a, c), s0, s2)
    ensures Without(s0, Merged(a, c).deletions) == Without(s2, Merged(a, c).insertions)
    ensures forall m <- Merged(a, c).moves :: m.from < |s0| && m.to < |s2| && s0[m.from] == s2[m.to]
  {
    var r := Merged(a, c);
    MergeComposes(a, c);
    MergeFits(a, c, |s0|, |s1|, |s2|);
    ComposeDescribes(a, c, r, s0, s1, s2);
    DescribesWithout(r, s0, s2);
    forall m | m in r.moves
      ensures m.from < |s0| && m.to < |s2| && s0[m.from] == s2[m.to]
    {
      assert Linked(r, m.from, m.to);
    }
  }

  // ---------------------------------------------------------------------------
  // Modifications

  /** A row that the old changeset inserted and the new one moved. */
  ghost predicate InsertedThenMoved(a: Changes, c: Changes, j: nat) {
    j in a.insertions && !EndsAt(a.moves, j) && j in c.deletions
  }

  lemma ShiftedModifications(s: set<nat>, c: Changes, k: nat)
    ensures k in ShiftAll(EraseAll(s, c.deletions), c.insertions)
       <==> exists j :: j in s && j !in c.deletions && k == Survive(c.deletions, c.insertions, j)
  {
    if k in ShiftAll(EraseAll(s, c.deletions), c.insertions) {
      var y :| y in EraseAll(s, c.deletions) && k == Shift(c.insertions, y);
      var x :| x in s && x !in c.deletions && y == Unshift(c.deletions, x);
    }
    forall j | j in s && j !in c.deletions && k == Survive(c.deletions, c.insertions, j)
      ensures k in ShiftAll(EraseAll(s, c.deletions), c.insertions)
    {
      assert Unshift(c.deletions, j) in EraseAll(s, c.deletions);
    }
  }

  /** A position is modified in the merge exactly when either half modified its row, unless the
      old half had inserted the row and the new half moved it. */
  lemma MergeModifications(a: Changes, c: Changes, k: nat)
    requires WellFormed(a) && WellFormed(c)
    ensures k in MergedModifications(a, c) <==>
              || k in c.modifications
              || exists j :: j in a.modifications && Linked(c, j, k) && !InsertedThenMoved(a, c, j)
  {
    ShiftedModifications(a.modifications, c, k);
    RedirectTouched(a.moves, c.moves, c.modifications, a.modifications, c, k);
    NewMovesMembers(a, c);
    if MovedAgain(a.moves, c.moves, a.modifications, k) {
      var m :| m in c.moves && m.to == k && m.from in a.modifications && EndsAt(a.moves, m.from);
      assert Move(m.from, k) in c.moves && Linked(c, m.from, k);
    }
    if k in ModifiedTargets(NewMoves(a, c), a.modifications) {
      var m :| m in NewMoves(a, c) && m.from in a.modifications && m.to == k;
      assert Move(m.from, k) in c.moves && Linked(c, m.from, k);
    }
    forall j | j in a.modifications && Linked(c, j, k) && !InsertedThenMoved(a, c, j)
      ensures k in MergedModifications(a, c)
    {
      if j in c.deletions {
        assert Move(j, k) in c.moves;
        if EndsAt(a.moves, j) {
          assert MovedAgain(a.moves, c.moves, a.modifications, k);
        } else {
          assert Move(j, k) in NewMoves(a, c);
        }
      }
    }
  }

  /** A row that was inserted and modified, and then moved: the merge does not call it modified. */
  lemma ForgottenModification()
    ensures var a, c := Changes({}, {0}, {0}, []), Changes({0}, {1}, {}, [Move(0, 1)]);
            && WellFormed(a) && WellFormed(c)
            && 0 in a.modifications && Linked(c, 0, 1)
            && 1 !in Merged(a, c).modifications
  {
    var a, c := Changes({}, {0}, {0}, []), Changes({0}, {1}, {}, [Move(0, 1)]);
    assert c.moves[0] in c.moves;
    MergeModifications(a, c, 1);
    assert InsertedThenMoved(a, c, 0);
  }

  lemma EmptyModifications(a: Changes, c: Changes, k: nat)
    requires IsEmpty(a) || IsEmpty(c)
    ensures k in Merged(a, c).modifications
       <==> k in c.modifications || exists j :: j in a.modifications && Linked(c, j, k)
  {
    if IsEmpty(c) {
      EmptyLinks(c, k, k);
      forall j { EmptyLinks(c, j, k); }
    }
  }

  /** Among the rows that the merge does not report as insertions, exactly those that
      either half modified are modified. */
  lemma MergeKeepsModifications(a: Changes, c: Changes, k: nat)
    requires WellFormed(a) && WellFormed(c) && k !in Merged(a, c).insertions
    ensures k in Merged(a, c).modifications
       <==> k in c.modifications || exists j :: j in a.modifications && Linked(c, j, k)
  {
    if IsEmpty(a) || IsEmpty(c) {
      EmptyModifications(a, c, k);
    } else {
      var r := Merged(a, c);
      MergeModifications(a, c, k);
      MergeComposes(a, c);
      forall j | Linked(c, j, k)
        ensures !InsertedThenMoved(a, c, j)
      {
        // k is not inserted, so it comes from an old position, through the row that c links to k.
        SurviveInverse(r.insertions, r.deletions, k);
        assert Linked(r, Survive(r.insertions, r.deletions, k), k);
        var i := Survive(r.insertions, r.deletions, k);
        var j' :| Linked(a, i, j') && Linked(c, j', k);
        LinkedInjective(c, j, k, j', k);
      }
    }
  }
}
