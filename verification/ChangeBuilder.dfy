/**
 The change builder: its index sets are updated in place by log operations, by merging a
 later changeset into them, and by dropping stale moves.  Each method is tied to the
 function of the old value that the theorems are about.
 */
module ChangeBuilder {
  import opened IndexAlgebra
  import opened ChangeSets
  import opened LogOperations
  import opened Merging
  import opened MergeTheorems
  import opened IndexSets
  import opened TailCounts

  /** What is handed to a callback: modifications in the old and in the new numbering. */
  datatype ChangeSet = ChangeSet(
    deletions: set<nat>,
    insertions: set<nat>,
    modifications: set<nat>,
    modificationsNew: set<nat>,
    moves: seq<Move>)

  /** The same, with its sets as they are stored. */
  datatype StoredChangeSet = StoredChangeSet(
    deletions: IndexSet,
    insertions: IndexSet,
    modifications: IndexSet,
    modificationsNew: IndexSet,
    moves: seq<Move>)
  {
    ghost function Value(): ChangeSet
      reads deletions, insertions, modifications, modificationsNew
    {
      ChangeSet(deletions.Members(), insertions.Members(), modifications.Members(), modificationsNew.Members(), moves)
    }
  }

  class CollectionChangeBuilder {
    const deletions: IndexSet
    const insertions: IndexSet
    const modifications: IndexSet
    var moves: seq<Move>

    /** The objects that the builder is made of. */
    ghost function Parts(): set<object> {
      {this, deletions, insertions, modifications}
    }

    ghost predicate Valid()
      reads Parts()
    {
      && deletions != insertions && deletions != modifications && insertions != modifications
      && deletions.Valid() && insertions.Valid() && modifications.Valid()
    }

    ghost function Value(): Changes
      reads Parts()
    {
      Changes(deletions.Members(), insertions.Members(), modifications.Members(), moves)
    }

    /** The ends of the given moves are added to the deletions and insertions, which now belong to the builder. */
    constructor (deletions: IndexSet, insertions: IndexSet, modifications: IndexSet, moves: seq<Move>)
      requires deletions != insertions && deletions != modifications && insertions != modifications
      requires deletions.Valid() && insertions.Valid() && modifications.Valid()
      modifies deletions, insertions
      ensures Valid() && Parts() == {this, deletions, insertions, modifications}
      ensures Value() == Changes(old(deletions.Members()) + Froms(moves), old(insertions.Members()) + Tos(moves),
                                 old(modifications.Members()), moves)
    {
      this.deletions, this.insertions, this.modifications := deletions, insertions, modifications;
      this.moves := moves;
      new;
      AddEnds();
    }

    method AddEnds()
      requires Valid()
      modifies deletions, insertions
      ensures Valid() && deletions.Members() == old(deletions.Members()) + Froms(moves)
      ensures insertions.Members() == old(insertions.Members()) + Tos(moves)
    {
      hide IndexSet.Valid, IndexSet.Members, Froms, Tos;
      NoEnds(moves);
      for k := 0 to |moves|
        invariant Valid() && deletions.Members() == old(deletions.Members()) + Froms(moves[..k])
        invariant insertions.Members() == old(insertions.Members()) + Tos(moves[..k])
      {
        EndsNext(moves, k);
        deletions.Add(moves[k].from);
        insertions.Add(moves[k].to);
      }
      assert moves[..|moves|] == moves;
    }

    constructor Copy(c: CollectionChangeBuilder)
      requires c.Valid()
      ensures Valid() && fresh(Parts()) && Value() == c.Value()
    {
      hide IndexSet.Valid, IndexSet.Members;
      deletions := new IndexSet.Copy(c.deletions);
      insertions := new IndexSet.Copy(c.insertions);
      modifications := new IndexSet.Copy(c.modifications);
      moves := c.moves;
    }

    method Insert(index: nat, count: nat, trackMoves: bool)
      requires Valid() && count != 0
      modifies Parts()
      ensures Valid() && Value() == Inserted(old(Value()), index, count, trackMoves)
      ensures trackMoves && WellFormed(old(Value())) ==>
                ComposedParts(old(Value()), InsertChange(index, count), Value())
    {
      hide IndexSet.Valid, IndexSet.Members, ComposedParts, WellFormed;
      ghost var was := Value();
      if trackMoves && WellFormed(was) {
        InsertComposes(was, index, count);
      }
      modifications.ShiftForInsertAt(index, count);
      if !trackMoves {
        return;
      }
      insertions.InsertAt(index, count);
      ShiftMovesForInsert(index, count);
    }

    method ShiftMovesForInsert(index: nat, count: nat)
      modifies `moves
      ensures moves == Retarget(old(moves), (x: nat) => OpenGap(x, index, count))
    {
      for k := 0 to |moves|
        invariant |moves| == |old(moves)|
        invariant forall x :: k <= x < |moves| ==> moves[x] == old(moves)[x]
        invariant forall x :: 0 <= x < k ==>
                    moves[x] == Move(old(moves)[x].from, OpenGap(old(moves)[x].to, index, count))
      {
        if moves[k].to >= index {
          moves := moves[k := Move(moves[k].from, moves[k].to + count)];
        }
      }
    }

    method Modify(index: nat)
      requires Valid()
      modifies Parts()
      ensures Valid() && Value() == Modified(old(Value()), index)
    {
      hide IndexSet.Valid, IndexSet.Members;
      modifications.Add(index);
    }

    method Erase(index: nat)
      requires Valid()
      modifies Parts()
      ensures Valid() && Value() == Erased(old(Value()), index)
      ensures WellFormed(old(Value())) ==> ComposedParts(old(Value()), EraseChange(index), Value())
    {
      hide IndexSet.Valid, IndexSet.Members, ComposedParts, WellFormed;
      ghost var was := Value();
      if WellFormed(was) {
        EraseComposes(was, index);
      }
      modifications.EraseAt(index);
      var unshifted := insertions.EraseOrUnshift(index);
      if unshifted.Some? {
        var shifted := deletions.AddShifted(unshifted.value);
      }
      ShiftMovesForErase(index);
    }

    method ShiftMovesForErase(index: nat)
      modifies `moves
      ensures moves == MovesAfterErase(old(moves), index)
    {
      hide MovesAfterErase;
      var i := 0;
      AfterEraseEnds(moves, index);
      while i < |moves|
        invariant 0 <= i <= |moves|
        invariant MovesAfterErase(old(moves), index) == moves[..i] + MovesAfterErase(moves[i..], index)
        decreases |moves| - i
      {
        AfterEraseUnfold(moves, i, index);
        if moves[i].to == index {
          moves := moves[..i] + moves[i + 1..];
        } else {
          if moves[i].to > index {
            moves := moves[i := Move(moves[i].from, moves[i].to - 1)];
          }
          i := i + 1;
        }
      }
      AfterEraseEnds(moves, index);
    }

    /** `oldSize` is the size of the collection that is being emptied. */
    method Clear(oldSize: nat)
      requires Valid() && |Value().insertions| <= oldSize + |Value().deletions|
      modifies Parts()
      ensures Valid() && Value() == Cleared(old(Value()), oldSize)
      ensures forall before: nat :: WellFormed(old(Value())) && Fits(old(Value()), before, oldSize) ==>
                ComposedParts(old(Value()), ClearChange(oldSize), Value())
    {
      hide IndexSet.Valid, IndexSet.Members, ComposedParts, WellFormed, Fits;
      ghost var was := Value();
      forall before: nat | WellFormed(was) && Fits(was, before, oldSize)
        ensures ComposedParts(was, ClearChange(oldSize), Cleared(was, oldSize))
      {
        ClearComposes(was, before, oldSize);
      }
      var deleted := deletions.Size();
      var inserted := insertions.Size();
      modifications.Clear();
      insertions.Clear();
      moves := [];
      deletions.Set(oldSize + deleted - inserted);
    }

    /** No two moves may end at the same row. */
    method MoveRow(from: nat, to: nat)
      requires Valid() && from != to && DistinctTos(Value().moves)
      modifies Parts()
      ensures Valid() && Value() == Moved(old(Value()), from, to)
      ensures WellFormed(old(Value())) ==> ComposedParts(old(Value()), MoveChange(from, to), Value())
    {
      hide IndexSet.Valid, IndexSet.Members, ComposedParts, WellFormed;
      ghost var was := Value();
      if WellFormed(was) {
        MoveComposes(was, from, to);
      }
      var updatedExistingMove := RetargetMoves(from, to);
      if updatedExistingMove {
        insertions.EraseAt(from);
        insertions.InsertAt(to, 1);
      } else {
        var shiftedFrom := insertions.EraseOrUnshift(from);
        insertions.InsertAt(to, 1);
        if shiftedFrom.Some? {
          var shifted := deletions.AddShifted(shiftedFrom.value);
          moves := moves + [Move(shifted, to)];
        }
      }
      MoveMark(from, to);
    }

    method MoveMark(from: nat, to: nat)
      requires Valid()
      modifies modifications
      ensures Valid()
      ensures var rest := EraseAt(old(modifications.Members()), from);
              modifications.Members() == if from in old(modifications.Members()) then InsertAt(rest, to, 1)
                                         else ShiftForInsertAt(rest, to, 1)
    {
      hide IndexSet.Valid, IndexSet.Members, EraseAt, InsertAt, ShiftForInsertAt;
      var modified := modifications.Contains(from);
      modifications.EraseAt(from);
      if modified {
        modifications.InsertAt(to, 1);
      } else {
        modifications.ShiftForInsertAt(to, 1);
      }
    }

    method RetargetMoves(from: nat, to: nat) returns (updated: bool)
      requires from != to && DistinctTos(moves)
      modifies `moves
      ensures moves == Retarget(old(moves), (x: nat) => Displaced(x, from, to))
      ensures updated <==> exists m :: m in old(moves) && m.to == from
    {
      updated := false;
      for k := 0 to |moves|
        invariant |moves| == |old(moves)|
        invariant forall x :: k <= x < |moves| ==> moves[x] == old(moves)[x]
        invariant forall x :: 0 <= x < k ==>
                    moves[x] == Move(old(moves)[x].from, Displaced(old(moves)[x].to, from, to))
        invariant updated <==> exists x :: 0 <= x < k && old(moves)[x].to == from
      {
        var m := moves[k];
        if m.to != from {
          if m.to >= to && m.to < from {
            moves := moves[k := Move(m.from, m.to + 1)];
          } else if m.to <= to && m.to > from {
            moves := moves[k := Move(m.from, m.to - 1)];
          }
        } else {
          assert !updated;
          moves := moves[k := Move(m.from, to)];
          updated := true;
        }
      }
      if updated {
        ghost var x :| 0 <= x < |moves| && old(moves)[x].to == from;
        assert old(moves)[x] in old(moves);
      }
    }

    method CleanUpStaleMoves()
      requires Valid()
      modifies Parts()
      ensures Valid() && Value() == Clean(old(Value()))
      ensures WellFormed(old(Value())) ==>
                && WellFormed(Value()) && SameLinks(old(Value()), Value())
                && forall m <- Value().moves :: !Stale(Value(), m)
    {
      hide IndexSet.Valid, IndexSet.Members, WellFormed, SameLinks;
      ghost var was := Value();
      if WellFormed(was) {
        CleanMeaning(was, 0);
        CleanLeavesNoStale(was, 0);
      }
      var k := 0;
      while k < |moves|
        invariant Valid() && 0 <= k <= |moves|
        invariant CleanFrom(Value(), k) == Clean(was)
        decreases |moves| - k
      {
        var m := moves[k];
        var deleted := CountTo(deletions, m.from);
        var inserted := CountTo(insertions, m.to);
        if m.from - deleted != m.to - inserted {
          k := k + 1;
        } else {
          ghost var now := Value();
          RemoveOne(deletions, m.from);
          RemoveOne(insertions, m.to);
          moves := moves[..k] + moves[k + 1..];
          assert Value() == DropMove(now, k);
        }
      }
    }

    predicate Empty()
      reads Parts()
      requires Valid()
      ensures Empty() <==> Value() == NO_CHANGES
    {
      deletions.Empty() && insertions.Empty() && modifications.Empty() && moves == []
    }

    method Reset()
      requires Valid()
      modifies Parts()
      ensures Valid() && Value() == NO_CHANGES
    {
      hide IndexSet.Valid, IndexSet.Members;
      deletions.Clear();
      insertions.Clear();
      modifications.Clear();
      moves := [];
    }

    /** Move everything out of another builder. */
    method Take(c: CollectionChangeBuilder)
      requires Valid() && c.Valid() && Parts() !! c.Parts()
      modifies Parts(), c.Parts()
      ensures Valid() && c.Valid() && Value() == old(c.Value()) && c.Value() == NO_CHANGES
    {
      hide IndexSet.Valid, IndexSet.Members;
      deletions.Take(c.deletions);
      insertions.Take(c.insertions);
      modifications.Take(c.modifications);
      moves, c.moves := c.moves, [];
    }

    /** Take over a later changeset, which is left empty.  With `asWritten` the cached counts of the
        deletions, which decide what is stale, must survive bringing the new deletions in. */
    method Merge(c: CollectionChangeBuilder, asWritten: bool)
      requires Valid() && c.Valid() && Parts() !! c.Parts()
      requires !asWritten || CountsSurvive(deletions.Members(), insertions.Members(), c.deletions.Members())
      modifies Parts(), c.Parts()
      ensures Valid() && c.Valid()
      ensures Value() == Merged(old(Value()), old(c.Value())) && c.Value() == NO_CHANGES
      ensures WellFormed(old(Value())) && WellFormed(old(c.Value())) ==>
                WellFormed(Value()) && Composed(old(Value()), old(c.Value()), Value())
    {
      hide IndexSet.Valid, IndexSet.Members, WellFormed, Composed, Merged, IsEmpty, CountsSurvive;
      if WellFormed(Value()) && WellFormed(c.Value()) {
        MergeComposes(Value(), c.Value());
      }
      EmptyMerge(Value(), c.Value());
      if c.Empty() {
        return;
      }
      if Empty() {
        Take(c);
        return;
      }
      MergeParts(c, asWritten);
      c.Reset();
    }

    method MergeParts(c: CollectionChangeBuilder, asWritten: bool)
      requires Valid() && c.Valid() && Parts() !! c.Parts() && !IsEmpty(Value()) && !IsEmpty(c.Value())
      requires !asWritten || CountsSurvive(deletions.Members(), insertions.Members(), c.deletions.Members())
      modifies Parts(), c`moves, c.modifications
      ensures Valid() && c.Valid() && Value() == Merged(old(Value()), old(c.Value()))
    {
      hide IndexSet.Valid, IndexSet.Members, Merged, MergedParts, Clean, CountsSurvive, IsEmpty, AddShiftedBy,
           InsertAll, EraseAll, ShiftAll, Redirect, ModifiedTargets, OfOldRows;
      ghost var a0, c0 := Value(), c.Value();
      MergeInParts(a0, c0);
      MergeMoves(c);
      MergeSets(c, asWritten);
      assert Value() == MergedParts(a0, c0);
      CleanUpStaleMoves();
      MergeMarks(c);
    }

    /** Bring the earlier modifications into the later numbering and add the later ones. */
    method MergeMarks(c: CollectionChangeBuilder)
      requires Valid() && c.Valid() && Parts() !! c.Parts()
      modifies modifications
      ensures Valid()
      ensures modifications.Members() ==
                ShiftAll(EraseAll(old(modifications.Members()), c.deletions.Members()), c.insertions.Members())
                  + c.modifications.Members()
    {
      hide IndexSet.Valid, IndexSet.Members, EraseAll, ShiftAll;
      modifications.EraseAllAt(c.deletions);
      modifications.ShiftForInsertAllAt(c.insertions);
      modifications.AddAll(c.modifications);
    }

    /** Carry both lists of moves over: the moves of the merge before stale ones are dropped. */
    method MergeMoves(c: CollectionChangeBuilder)
      requires Valid() && c.Valid() && Parts() !! c.Parts()
      modifies `moves, c`moves, c.modifications
      ensures Valid() && c.Valid()
      ensures moves == MergedParts(old(Value()), old(c.Value())).moves
      ensures var red := Redirect(old(moves), old(c.moves), old(c.modifications.Members()), modifications.Members(),
                                  old(c.Value()));
              c.modifications.Members() == red.touched
                + ModifiedTargets(OfOldRows(red.rest, insertions.Members()), modifications.Members())
    {
      hide IndexSet.Valid, IndexSet.Members, Redirect, OfOldRows, ModifiedTargets, Rebase;
      ghost var red := Redirect(moves, c.moves, c.modifications.Members(), modifications.Members(), c.Value());
      if c.moves != [] || !c.deletions.Empty() || !c.insertions.Empty() {
        RedirectMoves(c);
      } else {
        RedirectByNothing(moves, c.modifications.Members(), modifications.Members(), c.Value());
      }
      c.IgnoreMovesOf(insertions);
      c.CarryModifications(modifications);
      ghost var unseen := c.moves;
      c.RebaseMoves(deletions, insertions);
      RebasedBy(unseen, old(Value()));
      moves := moves + c.moves;
    }

    /** Bring in the later deletions and insertions. */
    method MergeSets(c: CollectionChangeBuilder, asWritten: bool)
      requires Valid() && c.Valid() && Parts() !! c.Parts()
      requires !asWritten || CountsSurvive(deletions.Members(), insertions.Members(), c.deletions.Members())
      modifies deletions, insertions
      ensures Valid()
      ensures deletions.Members() ==
                AddShiftedBy(old(deletions.Members()), old(insertions.Members()), c.deletions.Members())
      ensures insertions.Members() ==
                InsertAll(EraseAll(old(insertions.Members()), c.deletions.Members()), c.insertions.Members())
    {
      hide IndexSet.Members, CountsSurvive, AddShiftedBy, InsertAll, EraseAll;
      deletions.AddShiftedBy(insertions, c.deletions, asWritten);
      insertions.EraseAllAt(c.deletions);
      insertions.InsertAllAt(c.insertions);
    }

    /** Carry one old move on: along a new move of its row, or with its row unless that is deleted. */
    method RedirectOne(c: CollectionChangeBuilder, m: Move, moves: seq<Move>) returns (kept: seq<Move>, rest: seq<Move>)
      requires Valid() && c.Valid() && Parts() !! c.Parts()
      modifies c.modifications
      ensures c.Valid()
      ensures var p, touched := FindFrom(moves, m.to), old(c.modifications.Members());
              if p < |moves| then
                && kept == [Move(m.from, moves[p].to)] && rest == SwapOut(moves, p)
                && c.modifications.Members() ==
                     if moves[p].from in modifications.Members() then touched + {moves[p].to} else touched
              else
                && rest == moves && c.modifications.Members() == touched
                && kept == if m.to in c.deletions.Members() then []
                           else [Move(m.from, Survive(c.deletions.Members(), c.insertions.Members(), m.to))]
    {
      hide IndexSet.Valid, IndexSet.Members, SwapOut;
      var p := FindFrom(moves, m.to);
      if p < |moves| {
        var wasModified := modifications.Contains(moves[p].from);
        if wasModified {
          c.modifications.Add(moves[p].to);
        }
        return [Move(m.from, moves[p].to)], SwapOut(moves, p);
      }
      var deleted := c.deletions.Contains(m.to);
      if deleted {
        return [], moves;
      }
      var to := c.deletions.Unshift(m.to);
      to := c.insertions.Shift(to);
      return [Move(m.from, to)], moves;
    }

    /** Carry the old moves through the new changeset, absorbing new moves of the same rows. */
    method RedirectMoves(c: CollectionChangeBuilder)
      requires Valid() && c.Valid() && Parts() !! c.Parts()
      modifies `moves, c`moves, c.modifications
      ensures Valid() && c.Valid()
      ensures var red := Redirect(old(moves), old(c.moves), old(c.modifications.Members()), modifications.Members(),
                                  old(c.Value()));
              moves == red.kept && c.moves == red.rest && c.modifications.Members() == red.touched
    {
      hide IndexSet.Valid, IndexSet.Members, Redirect, SwapOut;
      var kept: seq<Move>, rest := [], c.moves;
      ghost var c0, modified := c.Value(), modifications.Members();
      ghost var red := Redirect(moves, rest, c.modifications.Members(), modified, c0);
      for k := 0 to |moves|
        invariant unchanged(`moves) && unchanged(c`moves) && Valid() && c.Valid()
        invariant red == KeptAll(kept, Redirect(moves[k..], rest, c.modifications.Members(), modified, c0))
      {
        RedirectUnfold(moves, k, rest, c.modifications.Members(), modified, c0);
        var one;
        one, rest := RedirectOne(c, moves[k], rest);
        kept := kept + one;
      }
      RedirectNone(rest, c.modifications.Members(), modified, c0);
      assert moves[|moves|..] == [];
      moves, c.moves := kept, rest;
    }

    /** Drop the moves of rows that the given positions hold. */
    method IgnoreMovesOf(positions: IndexSet)
      requires positions.Valid()
      modifies `moves
      ensures moves == OfOldRows(old(moves), positions.Members())
    {
      hide IndexSet.Valid, IndexSet.Members, OfOldRows;
      OldRowsEnd(positions.Members());
      if !positions.Empty() && moves != [] {
        assert moves[0..] == moves;
        var kept: seq<Move> := [];
        for k := 0 to |moves|
          invariant moves == old(moves)
          invariant OfOldRows(moves, positions.Members()) == kept + OfOldRows(moves[k..], positions.Members())
        {
          OldRowsUnfold(moves, k, positions.Members());
          var held := positions.Contains(moves[k].from);
          if !held {
            kept := kept + [moves[k]];
          }
        }
        assert moves[|moves|..] == [];
        moves := kept;
      } else {
        KeepAll(moves, positions.Members());
      }
    }

    /** Rows that were modified before they were moved stay modified. */
    method CarryModifications(modified: IndexSet)
      requires modified.Valid() && modifications.Valid() && modified != modifications
      modifies modifications
      ensures modifications.Valid()
      ensures modifications.Members() == old(modifications.Members()) + ModifiedTargets(moves, modified.Members())
    {
      hide IndexSet.Valid, IndexSet.Members;
      if !modified.Empty() && moves != [] {
        for k := 0 to |moves|
          invariant modifications.Valid()
          invariant modifications.Members() ==
                      old(modifications.Members()) + ModifiedTargets(moves[..k], modified.Members())
        {
          assert moves[..k + 1] == moves[..k] + [moves[k]];
          var wasModified := modified.Contains(moves[k].from);
          if wasModified {
            modifications.Add(moves[k].to);
          }
        }
        assert moves[..|moves|] == moves;
      }
    }

    /** Express the sources of the moves in the numbering before an earlier change. */
    method RebaseMoves(deletions: IndexSet, insertions: IndexSet)
      requires deletions.Valid() && insertions.Valid()
      modifies `moves
      ensures moves == Rebase(old(moves), Changes(deletions.Members(), insertions.Members(), {}, []))
    {
      hide IndexSet.Valid, IndexSet.Members;
      if !deletions.Empty() || !insertions.Empty() {
        for k := 0 to |moves|
          invariant |moves| == |old(moves)|
          invariant forall x :: k <= x < |moves| ==> moves[x] == old(moves)[x]
          invariant forall x :: 0 <= x < k ==>
                      moves[x] == Move(Survive(insertions.Members(), deletions.Members(), old(moves)[x].from),
                                       old(moves)[x].to)
        {
          var from := insertions.Unshift(moves[k].from);
          from := deletions.Shift(from);
          moves := moves[k := Move(from, moves[k].to)];
        }
      } else {
        forall x: nat {
          EmptyIsIdentity(x);
        }
      }
    }

    /** The final form for delivery: the modified rows in both numberings. */
    method Finalize() returns (r: StoredChangeSet)
      requires Valid()
      modifies modifications
      ensures r.deletions.Members() == old(deletions.Members()) && r.insertions.Members() == old(insertions.Members())
      ensures r.moves == old(moves)
      ensures var c := old(Value());
              && (forall i: nat :: i in r.modifications.Members() <==>
                    i !in c.deletions && Survive(c.deletions, c.insertions, i) in c.modifications)
              && forall j: nat :: j in r.modificationsNew.Members() <==> j in c.modifications && j !in c.insertions
      ensures r.Value() == Finalized(old(Value()))
    {
      hide IndexSet.Valid, IndexSet.Members, EraseAll, ShiftAll, Survive;
      FinalizedModifications(Value());
      var modificationsInOld := new IndexSet.Copy(modifications);
      modificationsInOld.EraseAllAt(insertions);
      modificationsInOld.ShiftForInsertAllAt(deletions);
      modifications.RemoveAll(insertions);
      r := StoredChangeSet(deletions, insertions, modificationsInOld, modifications, moves);
    }

    static method CountTo(s: IndexSet, n: nat) returns (count: int)
      requires s.Valid()
      ensures count == CountBelow(s.Members(), n)
    {
      count := s.Count(0, n);
    }

    static method RemoveOne(s: IndexSet, index: nat)
      requires s.Valid()
      modifies s
      ensures s.Valid() && s.Members() == old(s.Members()) - {index}
    {
      hide IndexSet.Members;
      s.Remove(index, 1);
      assert Interval(index, index + 1) == {index};
    }
  }

  ghost function Froms(moves: seq<Move>): set<nat> {
    set m | m in moves :: m.from
  }

  ghost function Tos(moves: seq<Move>): set<nat> {
    set m | m in moves :: m.to
  }

  lemma NoEnds(moves: seq<Move>)
    ensures Froms(moves[..0]) == {} && Tos(moves[..0]) == {}
  {
  }

  lemma EndsNext(moves: seq<Move>, k: nat)
    requires k < |moves|
    ensures Froms(moves[..k + 1]) == Froms(moves[..k]) + {moves[k].from}
    ensures Tos(moves[..k + 1]) == Tos(moves[..k]) + {moves[k].to}
  {
    assert moves[..k + 1] == moves[..k] + [moves[k]];
  }

  /** The merge of two changesets, neither of them empty, part by part. */
  lemma MergeInParts(a: Changes, c: Changes)
    requires !IsEmpty(a) && !IsEmpty(c)
    ensures var parts, red := MergedParts(a, c), Redirect(a.moves, c.moves, c.modifications, a.modifications, c);
            var touched := red.touched + ModifiedTargets(OfOldRows(red.rest, a.insertions), a.modifications);
            && parts.deletions == AddShiftedBy(a.deletions, a.insertions, c.deletions)
            && parts.insertions == InsertAll(EraseAll(a.insertions, c.deletions), c.insertions)
            && parts.modifications == a.modifications
            && Clean(parts).modifications == a.modifications
            && Merged(a, c) == Clean(parts).(modifications :=
                 ShiftAll(EraseAll(a.modifications, c.deletions), c.insertions) + touched)
  {
    CleanKeepsModifications(MergedParts(a, c), 0);
  }

  lemma EmptyMerge(a: Changes, c: Changes)
    ensures c == NO_CHANGES ==> Merged(a, c) == a
    ensures a == NO_CHANGES ==> Merged(a, c) == c
    ensures IsEmpty(a) <==> a == NO_CHANGES
    ensures IsEmpty(c) <==> c == NO_CHANGES
  {
  }

  lemma RebasedBy(moves: seq<Move>, a: Changes)
    ensures Rebase(moves, Changes(a.deletions, a.insertions, {}, [])) == Rebase(moves, a)
  {
  }

  /** Nothing has been looked at, and everything has. */
  lemma AfterEraseEnds(moves: seq<Move>, index: nat)
    ensures moves[..0] + MovesAfterErase(moves[0..], index) == MovesAfterErase(moves, index)
    ensures moves[..|moves|] + MovesAfterErase(moves[|moves|..], index) == moves
  {
    assert moves[0..] == moves && moves[|moves|..] == [] && moves[..|moves|] == moves;
  }

  /** One move less to look at. */
  lemma AfterEraseUnfold(moves: seq<Move>, i: nat, index: nat)
    requires i < |moves|
    ensures var m := moves[i];
            && (m.to == index ==>
                  var now := moves[..i] + moves[i + 1..];
                  moves[..i] + MovesAfterErase(moves[i..], index) == now[..i] + MovesAfterErase(now[i..], index))
            && (m.to != index ==>
                  var now := moves[i := Move(m.from, if m.to > index then m.to - 1 else m.to)];
                  moves[..i] + MovesAfterErase(moves[i..], index) ==
                    now[..i + 1] + MovesAfterErase(now[i + 1..], index))
  {
    var m, rest := moves[i], moves[i + 1..];
    assert moves[i..] == [m] + rest;
    assert ([m] + rest)[1..] == rest;
    if m.to == index {
      var now := moves[..i] + rest;
      assert now[..i] == moves[..i] && now[i..] == rest;
    } else {
      var m' := Move(m.from, if m.to > index then m.to - 1 else m.to);
      assert moves[i := m'][..i + 1] == moves[..i] + [m'] && moves[i := m'][i + 1..] == rest;
    }
  }

  function Finalized(c: Changes): ChangeSet {
    ChangeSet(c.deletions, c.insertions,
              ShiftAll(EraseAll(c.modifications, c.insertions), c.deletions),
              c.modifications - c.insertions,
              c.moves)
  }

  lemma {:induction false} CleanKeepsModifications(c: Changes, k: nat)
    requires k <= |c.moves|
    ensures CleanFrom(c, k).modifications == c.modifications
    decreases |c.moves| - k
  {
    if k < |c.moves| {
      if Stale(c, c.moves[k]) {
        CleanKeepsModifications(DropMove(c, k), k);
      } else {
        CleanKeepsModifications(c, k + 1);
      }
    }
  }

  ghost function KeptAll(kept: seq<Move>, r: Redirected): Redirected {
    r.(kept := kept + r.kept)
  }

  lemma RedirectUnfold(moves: seq<Move>, k: nat, rest: seq<Move>, touched: set<nat>, modified: set<nat>, c: Changes)
    requires k < |moves|
    ensures var p := FindFrom(rest, moves[k].to);
            Redirect(moves[k..], rest, touched, modified, c) ==
              if p < |rest| then
                var t := if rest[p].from in modified then touched + {rest[p].to} else touched;
                KeptAll([Move(moves[k].from, rest[p].to)], Redirect(moves[k + 1..], SwapOut(rest, p), t, modified, c))
              else if moves[k].to in c.deletions then
                Redirect(moves[k + 1..], rest, touched, modified, c)
              else
                KeptAll([Move(moves[k].from, Survive(c.deletions, c.insertions, moves[k].to))],
                        Redirect(moves[k + 1..], rest, touched, modified, c))
  {
    assert moves[k..][0] == moves[k] && moves[k..][1..] == moves[k + 1..];
  }

  lemma RedirectNone(rest: seq<Move>, touched: set<nat>, modified: set<nat>, c: Changes)
    ensures Redirect([], rest, touched, modified, c) == Redirected([], rest, touched)
  {
  }

  lemma OldRowsEnd(positions: set<nat>)
    ensures OfOldRows([], positions) == []
  {
  }

  lemma OldRowsUnfold(moves: seq<Move>, k: nat, positions: set<nat>)
    requires k < |moves|
    ensures OfOldRows(moves[k..], positions) ==
              (if moves[k].from in positions then [] else [moves[k]]) + OfOldRows(moves[k + 1..], positions)
  {
    assert moves[k..][0] == moves[k] && moves[k..][1..] == moves[k + 1..];
  }

  lemma {:induction false} KeepAll(moves: seq<Move>, positions: set<nat>)
    requires positions == {} || moves == []
    ensures OfOldRows(moves, positions) == moves
  {
    if moves != [] {
      KeepAll(moves[1..], positions);
    }
  }

  lemma {:induction false} RedirectByNothing(olds: seq<Move>, touched: set<nat>, modified: set<nat>, c: Changes)
    requires c.moves == [] && c.deletions == {} && c.insertions == {}
    ensures Redirect(olds, [], touched, modified, c) == Redirected(olds, [], touched)
  {
    if olds != [] {
      EmptyIsIdentity(olds[0].to);
      RedirectByNothing(olds[1..], touched, modified, c);
    }
  }

  /** Modified in the old numbering are exactly the rows that survive to a modified position. */
  lemma FinalizedModifications(c: Changes)
    ensures forall i: nat :: i in Finalized(c).modifications <==>
              i !in c.deletions && Survive(c.deletions, c.insertions, i) in c.modifications
  {
    forall i: nat
      ensures i in Finalized(c).modifications <==>
                i !in c.deletions && Survive(c.deletions, c.insertions, i) in c.modifications
    {
      if i in Finalized(c).modifications {
        var y :| y in EraseAll(c.modifications, c.insertions) && i == Shift(c.deletions, y);
        var j :| j in c.modifications && j !in c.insertions && y == Unshift(c.insertions, j);
        SurviveInverse(c.insertions, c.deletions, j);
      }
      if i !in c.deletions && Survive(c.deletions, c.insertions, i) in c.modifications {
        var j := Survive(c.deletions, c.insertions, i);
        SurviveInverse(c.deletions, c.insertions, i);
        assert Unshift(c.insertions, j) in EraseAll(c.modifications, c.insertions);
      }
    }
  }

  /** The delivered form reports what the builder holds.  Its two modification sets name the same rows
      in the two numberings, namely the modified ones that are neither deleted nor inserted. */
  lemma FinalizeMatches(c: Changes)
    ensures var r := Finalized(c);
            && r.deletions == c.deletions && r.insertions == c.insertions && r.moves == c.moves
            && (forall j :: j in r.modificationsNew <==> j in c.modifications && j !in c.insertions)
            && (forall i: nat :: i in r.modifications <==>
                  i !in c.deletions && Survive(c.deletions, c.insertions, i) in c.modifications)
            && (forall i <- r.modifications :: i !in r.deletions)
            && (forall j <- r.modificationsNew :: j !in r.insertions)
            && (forall i <- r.modifications :: Survive(r.deletions, r.insertions, i) in r.modificationsNew)
            && (forall j <- r.modificationsNew ::
                  && Survive(r.insertions, r.deletions, j) in r.modifications
                  && Survive(r.deletions, r.insertions, Survive(r.insertions, r.deletions, j)) == j)
            && |r.modifications| == |r.modificationsNew|
  {
    hide Survive, EraseAll, ShiftAll;
    var r := Finalized(c);
    FinalizedModifications(c);
    forall i | i in r.modifications ensures Survive(r.deletions, r.insertions, i) in r.modificationsNew {
      SurviveInverse(c.deletions, c.insertions, i);
    }
    forall j | j in r.modificationsNew
      ensures Survive(r.insertions, r.deletions, j) in r.modifications
      ensures Survive(r.deletions, r.insertions, Survive(r.insertions, r.deletions, j)) == j
    {
      SurviveInverse(c.insertions, c.deletions, j);
    }
    SameSize(r.modifications, r.modificationsNew, r.deletions, r.insertions);
  }

  lemma {:induction false} SameSize(s: set<nat>, t: set<nat>, deleted: set<nat>, inserted: set<nat>)
    requires forall i <- s :: i !in deleted && Survive(deleted, inserted, i) in t
    requires forall j <- t :: j !in inserted && Survive(inserted, deleted, j) in s
    ensures |s| == |t|
    decreases s
  {
    if s == {} {
      assert t == {};
    } else {
      var i :| i in s;
      var j := Survive(deleted, inserted, i);
      SurviveInverse(deleted, inserted, i);
      forall i' | i' in s - {i} ensures Survive(deleted, inserted, i') in t - {j} {
        SurviveInverse(deleted, inserted, i');
      }
      forall j' | j' in t - {j} ensures Survive(inserted, deleted, j') in s - {i} {
        SurviveInverse(inserted, deleted, j');
      }
      SameSize(s - {i}, t - {j}, deleted, inserted);
    }
  }
}
