/**
 The incremental log operations of a changeset, and the elementary change that each
 of them stands for.  Every operation is the composition of the changeset so far with
 its elementary change.
 */
module LogOperations {
  import opened IndexAlgebra
  import opened ChangeSets

  function Inserted(c: Changes, index: nat, count: nat, trackMoves: bool): Changes {
    var modified := c.(modifications := ShiftForInsertAt(c.modifications, index, count));
    if !trackMoves then modified
    else modified.(insertions := InsertAt(c.insertions, index, count),
                   moves := Retarget(c.moves, (to: nat) => OpenGap(to, index, count)))
  }

  function OpenGap(t: nat, index: nat, count: nat): nat {
    if t >= index then t + count else t
  }

  function Retarget(moves: seq<Move>, f: nat -> nat): seq<Move> {
    seq(|moves|, k requires 0 <= k < |moves| => Move(moves[k].from, f(moves[k].to)))
  }

  function Erased(c: Changes, index: nat): Changes {
    Changes(if index in c.insertions then c.deletions
            else c.deletions + {Survive(c.insertions, c.deletions, index)},
            EraseAt(c.insertions, index),
            EraseAt(c.modifications, index),
            MovesAfterErase(c.moves, index))
  }

  function MovesAfterErase(moves: seq<Move>, index: nat): seq<Move> {
    if moves == [] then [] else
      var m := moves[0];
      var kept := if m.to == index then [] else if m.to > index then [Move(m.from, m.to - 1)] else [m];
      kept + MovesAfterErase(moves[1..], index)
  }

  /** The size of the collection before any of the changes, given its size now. */
  function OriginalSize(c: Changes, size: nat): nat {
    if |c.insertions| <= size + |c.deletions| then size + |c.deletions| - |c.insertions| else 0
  }

  function Cleared(c: Changes, size: nat): Changes {
    Changes(Interval(0, OriginalSize(c, size)), {}, {}, [])
  }

  function Modified(c: Changes, index: nat): Changes {
    c.(modifications := c.modifications + {index})
  }

  /** Where a row at `x` goes when the row at `from` is taken out and put back at `to`. */
  function Displaced(x: nat, from: nat, to: nat): nat {
    if x == from then to
    else if to <= x < from then x + 1
    else if from < x <= to then x - 1
    else x
  }

  function Moved(c: Changes, from: nat, to: nat): Changes {
    var insertions := InsertAt(EraseAt(c.insertions, from), to, 1);
    var modifications :=
      if from in c.modifications then InsertAt(EraseAt(c.modifications, from), to, 1)
      else ShiftForInsertAt(EraseAt(c.modifications, from), to, 1);
    var moves := Retarget(c.moves, (x: nat) => Displaced(x, from, to));
    if from in c.insertions || exists m :: m in c.moves && m.to == from then
      Changes(c.deletions, insertions, modifications, moves)
    else
      var source := Survive(c.insertions, c.deletions, from);
      Changes(c.deletions + {source}, insertions, modifications, moves + [Move(source, to)])
  }

  // ---------------------------------------------------------------------------
  // Elementary changes

  function InsertChange(index: nat, count: nat): Changes {
    Changes({}, Interval(index, index + count), {}, [])
  }

  function EraseChange(index: nat): Changes {
    Changes({index}, {}, {}, [])
  }

  function MoveChange(from: nat, to: nat): Changes {
    Changes({from}, {to}, {}, [Move(from, to)])
  }

  function ClearChange(size: nat): Changes {
    Changes(Interval(0, size), {}, {}, [])
  }

  function CloseGap(t: nat, index: nat): nat {
    if t > index then t - 1 else t
  }

  lemma {:induction false} AfterEraseMember(moves: seq<Move>, index: nat, f: nat, k: nat)
    ensures Move(f, k) in MovesAfterErase(moves, index)
       <==> exists t :: Move(f, t) in moves && t != index && k == CloseGap(t, index)
  {
    if moves != [] {
      AfterEraseMember(moves[1..], index, f, k);
      assert forall m :: m in moves <==> m == moves[0] || m in moves[1..];
    }
  }

  lemma {:induction false} AfterEraseDistinct(moves: seq<Move>, index: nat)
    requires forall x, y :: 0 <= x < y < |moves| ==> moves[x].from != moves[y].from
    ensures var r := MovesAfterErase(moves, index);
            && (forall x, y :: 0 <= x < y < |r| ==> r[x] != r[y])
            && forall m <- r :: exists n :: n in moves && n.from == m.from
  {
    if moves != [] {
      AfterEraseDistinct(moves[1..], index);
      assert forall n :: n in moves[1..] ==> n in moves && n.from != moves[0].from;
    }
  }

  lemma RetargetMember(moves: seq<Move>, f: nat -> nat, g: nat, k: nat)
    ensures Move(g, k) in Retarget(moves, f) <==> exists t :: Move(g, t) in moves && k == f(t)
  {
    var r := Retarget(moves, f);
    if Move(g, k) in r {
      var x :| 0 <= x < |r| && r[x] == Move(g, k);
      assert Move(g, moves[x].to) == moves[x];
    }
    forall t | Move(g, t) in moves && k == f(t)
      ensures Move(g, k) in r
    {
      var x :| 0 <= x < |moves| && moves[x] == Move(g, t);
      assert r[x] == Move(g, k);
    }
  }

  lemma InsertLinks(index: nat, count: nat, t: nat, k: nat)
    ensures Linked(InsertChange(index, count), t, k) <==> k == OpenGap(t, index, count)
  {
    EmptyIsIdentity(t);
    ShiftInterval(index, index + count, t);
  }

  lemma EraseLinks(index: nat, t: nat, k: nat)
    ensures Linked(EraseChange(index), t, k) <==> t != index && k == CloseGap(t, index)
  {
    SurviveErase(index, t);
    EmptyIsIdentity(Unshift({index}, t));
  }

  lemma SurviveMove(from: nat, to: nat, x: nat)
    requires x != from
    ensures Survive({from}, {to}, x) == Displaced(x, from, to)
  {
    SurviveErase(from, x);
    assert {to} == Interval(to, to + 1);
    ShiftInterval(to, to + 1, Unshift({from}, x));
  }

  // ---------------------------------------------------------------------------
  // Each operation composes the changeset with its elementary change

  lemma InsertedSets(c: Changes, index: nat, count: nat)
    ensures c.deletions == ComposeDeletions(c.deletions, c.insertions, {})
    ensures InsertAt(c.insertions, index, count)
         == ComposeInsertions(c.insertions, {}, Interval(index, index + count))
  {
    hide AddShiftedBy, EraseAll, InsertAll, InsertAt, Survive;
    forall i: nat
      ensures i in c.deletions <==> i in ComposeDeletions(c.deletions, c.insertions, {})
    {
      ComposeDeletionsMember(c.deletions, c.insertions, {}, i);
    }
    InsertAtIsBulk(c.insertions, index, count);
    EraseNothing(c.insertions);
  }

  lemma InsertedMoves(c: Changes, index: nat, count: nat)
    requires WellFormed(c)
    ensures MovesComposed(c, InsertChange(index, count), Inserted(c, index, count, true).moves)
  {
    var e, moves := InsertChange(index, count), Inserted(c, index, count, true).moves;
    forall g, k
      ensures Move(g, k) in moves <==> exists t :: Move(g, t) in c.moves && Linked(e, t, k)
    {
      RetargetMember(c.moves, (to: nat) => OpenGap(to, index, count), g, k);
      forall t { InsertLinks(index, count, t, k); }
    }
  }

  lemma InsertComposes(c: Changes, index: nat, count: nat)
    requires WellFormed(c)
    ensures ComposedParts(c, InsertChange(index, count), Inserted(c, index, count, true))
  {
    InsertedSets(c, index, count);
    InsertedMoves(c, index, count);
  }

  lemma EraseComposes(c: Changes, index: nat)
    requires WellFormed(c)
    ensures ComposedParts(c, EraseChange(index), Erased(c, index))
  {
    var e, r := EraseChange(index), Erased(c, index);
    EraseAtIsBulk(c.insertions, index);
    EraseNothing(EraseAll(c.insertions, {index}));
    assert InsertAll(EraseAll(c.insertions, {index}), {}) == r.insertions;
    AfterEraseDistinct(c.moves, index);
    forall g, k
      ensures Move(g, k) in r.moves <==> exists t :: Move(g, t) in c.moves && Linked(e, t, k)
    {
      AfterEraseMember(c.moves, index, g, k);
      forall t { EraseLinks(index, t, k); }
    }
  }

  lemma ClearComposes(c: Changes, before: nat, size: nat)
    requires WellFormed(c) && Fits(c, before, size)
    ensures |c.insertions| <= size + |c.deletions|
    ensures ComposedParts(c, ClearChange(size), Cleared(c, size))
  {
    hide ComposeDeletions, ComposeInsertions, Survive, CountBelow;
    FitsSize(c, before, size);
    ClearedDeletions(c, before, size);
    ClearedInsertions(c, size);
  }

  lemma ClearedDeletions(c: Changes, before: nat, size: nat)
    requires Fits(c, before, size)
    ensures Interval(0, before) == ComposeDeletions(c.deletions, c.insertions, Interval(0, size))
  {
    hide AddShiftedBy, Survive;
    forall i: nat
      ensures i in Interval(0, before) <==> i in ComposeDeletions(c.deletions, c.insertions, Interval(0, size))
    {
      ComposeDeletionsMember(c.deletions, c.insertions, Interval(0, size), i);
      if before < i {
        SurviveMonotone(c.deletions, c.insertions, before, i);
      } else if i < before && i !in c.deletions {
        SurviveMonotone(c.deletions, c.insertions, i, before);
      }
    }
  }

  lemma ClearedInsertions(c: Changes, size: nat)
    requires forall x <- c.insertions :: x < size
    ensures ComposeInsertions(c.insertions, Interval(0, size), {}) == {}
  {
    assert EraseAll(c.insertions, Interval(0, size)) == {};
  }

  lemma MoveLinks(from: nat, to: nat, t: nat, k: nat)
    ensures Linked(MoveChange(from, to), t, k) <==> k == Displaced(t, from, to)
  {
    if t != from {
      SurviveMove(from, to, t);
    }
  }

  /** A row that an earlier move brought to `from` was put there by an insertion. */
  lemma MoveComposes(c: Changes, from: nat, to: nat)
    requires WellFormed(c)
    ensures ComposedParts(c, MoveChange(from, to), Moved(c, from, to))
  {
    var e, r := MoveChange(from, to), Moved(c, from, to);
    MovedSets(c, from, to);
    if from !in c.insertions {
      SurviveInverse(c.insertions, c.deletions, from);
    }
    forall g, k
      ensures Move(g, k) in r.moves <==>
                || (exists t :: Move(g, t) in c.moves && Linked(e, t, k))
                || (g !in c.deletions && Move(Survive(c.deletions, c.insertions, g), k) in e.moves)
    {
      RetargetMember(c.moves, (x: nat) => Displaced(x, from, to), g, k);
      forall t { MoveLinks(from, to, t, k); }
      if g !in c.deletions {
        SurviveInverse(c.deletions, c.insertions, g);
      }
    }
    forall x, y | 0 <= x < y < |r.moves|
      ensures r.moves[x] != r.moves[y]
    {
      assert x < |c.moves| && c.moves[x] in c.moves;
    }
  }

  lemma MovedSets(c: Changes, from: nat, to: nat)
    requires WellFormed(c)
    ensures Moved(c, from, to).deletions == ComposeDeletions(c.deletions, c.insertions, {from})
    ensures Moved(c, from, to).insertions == ComposeInsertions(c.insertions, {from}, {to})
  {
    EraseAtIsBulk(c.insertions, from);
    InsertAtIsBulk(EraseAt(c.insertions, from), to, 1);
    assert {to} == Interval(to, to + 1);
  }
}
