/**
 Combining two consecutive changesets, and dropping moves that have become no-ops.
 The functions here are what the builder's in-place methods compute; the lemmas say
 what that is worth.
 */
module Merging {
  import opened IndexAlgebra
  import opened ChangeSets

  // ---------------------------------------------------------------------------
  // Stale moves

  /** A move whose two ends have the same rank among the elements that stay put. */
  predicate Stale(c: Changes, m: Move) {
    m.from - CountBelow(c.deletions, m.from) == m.to - CountBelow(c.insertions, m.to)
  }

  function DropMove(c: Changes, k: nat): Changes
    requires k < |c.moves|
  {
    Changes(c.deletions - {c.moves[k].from}, c.insertions - {c.moves[k].to}, c.modifications,
            c.moves[..k] + c.moves[k + 1..])
  }

  /** One pass over the moves from position `k` on; each drop changes the sets seen by the rest. */
  function CleanFrom(c: Changes, k: nat): Changes
    requires k <= |c.moves|
    decreases |c.moves| - k
  {
    if k == |c.moves| then c
    else if Stale(c, c.moves[k]) then CleanFrom(DropMove(c, k), k)
    else CleanFrom(c, k + 1)
  }

  function Clean(c: Changes): Changes {
    CleanFrom(c, 0)
  }

  lemma {:induction false} CountBelowRemove(s: set<nat>, x: nat, n: nat)
    requires x in s
    ensures CountBelow(s, n) == CountBelow(s - {x}, n) + if x < n then 1 else 0
  {
    if n > 0 {
      CountBelowRemove(s, x, n - 1);
    }
  }

  /** Survivors keep their destination when a stale move is dropped. */
  lemma DropKeepsSurvivor(c: Changes, k: nat, i: nat)
    requires WellFormed(c) && k < |c.moves| && Stale(c, c.moves[k]) && i !in c.deletions
    ensures Survive(DropMove(c, k).deletions, DropMove(c, k).insertions, i)
         == Survive(c.deletions, c.insertions, i)
  {
    var m, r := c.moves[k], DropMove(c, k);
    assert m in c.moves;
    var j := Survive(c.deletions, c.insertions, i);
    CountBelowRemove(c.deletions, m.from, i);
    CountBelowRemove(c.insertions, m.to, j);
    assert m.from < i <==> m.to < j by {
      if m.from < i {
        UnshiftMonotone(c.deletions, m.from, i);
        if j < m.to { UnshiftMonotone(c.insertions, j, m.to); }
      } else {
        UnshiftMonotone(c.deletions, i, m.from);
        if m.to < j { UnshiftMonotone(c.insertions, m.to, j); }
      }
    }
    SurviveUnique(r.deletions, r.insertions, i, j);
  }

  /** The two ends of a dropped stale move become survivors of each other. */
  lemma DropJoinsEnds(c: Changes, k: nat)
    requires WellFormed(c) && k < |c.moves| && Stale(c, c.moves[k])
    ensures Survive(DropMove(c, k).deletions, DropMove(c, k).insertions, c.moves[k].from) == c.moves[k].to
  {
    var m, r := c.moves[k], DropMove(c, k);
    assert m in c.moves;
    CountBelowRemove(c.deletions, m.from, m.from);
    CountBelowRemove(c.insertions, m.to, m.to);
    SurviveUnique(r.deletions, r.insertions, m.from, m.to);
  }

  ghost predicate SameLinks(c: Changes, r: Changes) {
    forall i, j :: Linked(c, i, j) <==> Linked(r, i, j)
  }

  lemma DropKeepsLinks(c: Changes, k: nat)
    requires WellFormed(c) && k < |c.moves| && Stale(c, c.moves[k])
    ensures SameLinks(c, DropMove(c, k))
  {
    var m, r := c.moves[k], DropMove(c, k);
    DropJoinsEnds(c, k);
    DropMoveMembers(c, k);
    forall i, j
      ensures Linked(c, i, j) <==> Linked(r, i, j)
    {
      if i !in c.deletions {
        DropKeepsSurvivor(c, k, i);
      }
    }
  }

  lemma DropMoveMembers(c: Changes, k: nat)
    requires WellFormed(c) && k < |c.moves|
    ensures forall m :: m in DropMove(c, k).moves <==> m in c.moves && m != c.moves[k]
  {
    var low, high := c.moves[..k], c.moves[k + 1..];
    assert c.moves == low + [c.moves[k]] + high;
    assert c.moves[k] !in low && c.moves[k] !in high;
  }

  lemma DropKeepsForm(c: Changes, k: nat)
    requires WellFormed(c) && k < |c.moves|
    ensures WellFormed(DropMove(c, k))
  {
    var m, r := c.moves[k], DropMove(c, k);
    DropMoveMembers(c, k);
    forall n | n in r.moves
      ensures n.from in r.deletions && n.to in r.insertions
    {
      var x :| 0 <= x < |c.moves| && c.moves[x] == n;
      assert x != k;
    }
  }

  lemma DropKeepsFit(c: Changes, k: nat, before: nat, after: nat)
    requires WellFormed(c) && k < |c.moves| && Stale(c, c.moves[k]) && Fits(c, before, after)
    ensures Fits(DropMove(c, k), before, after)
  {
    DropKeepsSurvivor(c, k, before);
  }

  /** A pass that drops stale moves changes no link, no size, no modification, and keeps the form. */
  lemma {:induction false} CleanMeaning(c: Changes, k: nat)
    requires WellFormed(c) && k <= |c.moves|
    ensures WellFormed(CleanFrom(c, k)) && SameLinks(c, CleanFrom(c, k))
    ensures CleanFrom(c, k).modifications == c.modifications
    ensures forall before, after :: Fits(c, before, after) ==> Fits(CleanFrom(c, k), before, after)
    decreases |c.moves| - k
  {
    if k == |c.moves| {
    } else if Stale(c, c.moves[k]) {
      DropKeepsForm(c, k);
      DropKeepsLinks(c, k);
      forall before, after | Fits(c, before, after) {
        DropKeepsFit(c, k, before, after);
      }
      CleanMeaning(DropMove(c, k), k);
    } else {
      CleanMeaning(c, k + 1);
    }
  }

  /** Dropping one stale move never makes another one stale. */
  lemma DropMakesNoneStale(c: Changes, k: nat, m: Move)
    requires WellFormed(c) && k < |c.moves| && Stale(c, c.moves[k])
    requires m in c.moves && m != c.moves[k] && !Stale(c, m)
    ensures !Stale(DropMove(c, k), m)
  {
    var d := c.moves[k];
    assert d in c.moves;
    CountBelowRemove(c.deletions, d.from, m.from);
    CountBelowRemove(c.insertions, d.to, m.to);
    if d.from < m.from {
      UnshiftMonotone(c.deletions, d.from, m.from);
    } else {
      UnshiftMonotone(c.deletions, m.from, d.from);
    }
    if d.to < m.to {
      UnshiftMonotone(c.insertions, d.to, m.to);
    } else {
      UnshiftMonotone(c.insertions, m.to, d.to);
    }
  }

  /** After the pass every remaining move really reorders something. */
  lemma {:induction false} CleanLeavesNoStale(c: Changes, k: nat)
    requires WellFormed(c) && k <= |c.moves|
    requires forall x :: 0 <= x < k ==> !Stale(c, c.moves[x])
    ensures forall m <- CleanFrom(c, k).moves :: !Stale(CleanFrom(c, k), m)
    decreases |c.moves| - k
  {
    if k == |c.moves| {
    } else if Stale(c, c.moves[k]) {
      var r := DropMove(c, k);
      DropKeepsForm(c, k);
      forall x | 0 <= x < k
        ensures !Stale(r, r.moves[x])
      {
        DropMakesNoneStale(c, k, c.moves[x]);
      }
      CleanLeavesNoStale(r, k);
    } else {
      CleanLeavesNoStale(c, k + 1);
    }
  }

  // ---------------------------------------------------------------------------
  // Carrying the old moves through the new changeset

  datatype Redirected = Redirected(kept: seq<Move>, rest: seq<Move>, touched: set<nat>)

  /** Index of the first move that starts at `from`, or the length if there is none. */
  function FindFrom(moves: seq<Move>, from: nat): (p: nat)
    ensures p <= |moves|
    ensures p < |moves| ==> moves[p].from == from
    ensures forall x :: 0 <= x < p ==> moves[x].from != from
  {
    if moves == [] then 0
    else if moves[0].from == from then 0
    else 1 + FindFrom(moves[1..], from)
  }

  /** Overwrite entry `p` with the last one and drop the last. */
  function SwapOut(moves: seq<Move>, p: nat): seq<Move>
    requires p < |moves|
  {
    moves[p := moves[|moves| - 1]][..|moves| - 1]
  }

  /** `olds` are the moves still to be looked at, `rest` the new moves not yet absorbed. */
  function Redirect(olds: seq<Move>, rest: seq<Move>, touched: set<nat>, modified: set<nat>, c: Changes): Redirected
    decreases |olds|
  {
    if olds == [] then Redirected([], rest, touched) else
      var first, p := olds[0], FindFrom(rest, olds[0].to);
      if p < |rest| then
        var t := if rest[p].from in modified then touched + {rest[p].to} else touched;
        Kept(Move(first.from, rest[p].to), Redirect(olds[1..], SwapOut(rest, p), t, modified, c))
      else if first.to in c.deletions then
        Redirect(olds[1..], rest, touched, modified, c)
      else
        Kept(Move(first.from, Survive(c.deletions, c.insertions, first.to)),
             Redirect(olds[1..], rest, touched, modified, c))
  }

  function Kept(m: Move, r: Redirected): Redirected {
    r.(kept := [m] + r.kept)
  }

  /** The new moves of rows that the old changeset did not insert. */
  function OfOldRows(moves: seq<Move>, insertions: set<nat>): seq<Move> {
    if moves == [] then []
    else (if moves[0].from in insertions then [] else [moves[0]]) + OfOldRows(moves[1..], insertions)
  }

  /** The same moves with their sources in the numbering of the oldest collection. */
  function Rebase(moves: seq<Move>, a: Changes): seq<Move> {
    seq(|moves|, k requires 0 <= k < |moves| =>
      Move(Survive(a.insertions, a.deletions, moves[k].from), moves[k].to))
  }

  function ModifiedTargets(moves: seq<Move>, modified: set<nat>): set<nat> {
    set m | m in moves && m.from in modified :: m.to
  }

  predicate IsEmpty(c: Changes) {
    c.deletions == {} && c.insertions == {} && c.modifications == {} && c.moves == []
  }

  /** The deletions, insertions and moves of the merge before stale moves are dropped. */
  function MergedParts(a: Changes, c: Changes): Changes {
    var red := Redirect(a.moves, c.moves, c.modifications, a.modifications, c);
    var unseen := OfOldRows(red.rest, a.insertions);
    Changes(AddShiftedBy(a.deletions, a.insertions, c.deletions),
            InsertAll(EraseAll(a.insertions, c.deletions), c.insertions),
            a.modifications,
            red.kept + Rebase(unseen, a))
  }

  function MergedModifications(a: Changes, c: Changes): set<nat> {
    var red := Redirect(a.moves, c.moves, c.modifications, a.modifications, c);
    var unseen := OfOldRows(red.rest, a.insertions);
    ShiftAll(EraseAll(a.modifications, c.deletions), c.insertions)
      + (red.touched + ModifiedTargets(unseen, a.modifications))
  }

  function Merged(a: Changes, c: Changes): Changes {
    if IsEmpty(c) then a
    else if IsEmpty(a) then c
    else Clean(MergedParts(a, c)).(modifications := MergedModifications(a, c))
  }

  // ---------------------------------------------------------------------------

  ghost predicate DistinctFroms(moves: seq<Move>) {
    forall x, y :: 0 <= x < y < |moves| ==> moves[x].from != moves[y].from
  }

  ghost predicate DistinctTos(moves: seq<Move>) {
    forall x, y :: 0 <= x < y < |moves| ==> moves[x].to != moves[y].to
  }

  lemma SwapOutMembers(moves: seq<Move>, p: nat)
    requires p < |moves| && DistinctFroms(moves)
    ensures DistinctFroms(SwapOut(moves, p))
    ensures forall m :: m in SwapOut(moves, p) <==> m in moves && m.from != moves[p].from
  {
    var r := SwapOut(moves, p);
    forall m
      ensures m in r <==> m in moves && m.from != moves[p].from
    {
      if m in moves && m.from != moves[p].from {
        var x :| 0 <= x < |moves| && moves[x] == m;
        assert r[if x == |moves| - 1 then p else x] == m;
      }
      if m in r {
        var x :| 0 <= x < |r| && r[x] == m;
        assert m == moves[if x == p then |moves| - 1 else x];
      }
    }
  }

  lemma FindFromAbsent(moves: seq<Move>, from: nat)
    ensures FindFrom(moves, from) == |moves| <==> forall m <- moves :: m.from != from
  {
    if FindFrom(moves, from) == |moves| {
      forall m | m in moves
        ensures m.from != from
      {
        var x :| 0 <= x < |moves| && moves[x] == m;
      }
    } else {
      assert moves[FindFrom(moves, from)] in moves;
    }
  }

  /** What a stretch of the pass may rely on: `rest` holds every new move of a row in `olds`. */
  ghost predicate Redirectable(olds: seq<Move>, rest: seq<Move>, c: Changes) {
    && WellFormed(c) && DistinctFroms(rest) && DistinctTos(olds)
    && (forall m <- rest :: m in c.moves)
    && (forall m <- c.moves, o <- olds :: m.from == o.to ==> m in rest)
  }

  /** The step of the pass: the rest of it may rely on the same. */
  lemma RedirectStep(olds: seq<Move>, rest: seq<Move>, c: Changes)
    requires olds != [] && Redirectable(olds, rest, c)
    ensures var p := FindFrom(rest, olds[0].to);
            && Redirectable(olds[1..], if p < |rest| then SwapOut(rest, p) else rest, c)
            && (p < |rest| ==> rest[p] in c.moves)
            && (p == |rest| ==> forall m <- c.moves :: m.from != olds[0].to)
  {
    hide FindFrom, SwapOut;
    var p := FindFrom(rest, olds[0].to);
    FindFromAbsent(rest, olds[0].to);
    OthersEndElsewhere(olds);
    if p < |rest| {
      SwapOutMembers(rest, p);
    } else {
      assert olds[0] in olds;
    }
  }

  lemma OthersEndElsewhere(olds: seq<Move>)
    requires olds != [] && DistinctTos(olds)
    ensures DistinctTos(olds[1..]) && forall o <- olds[1..] :: o in olds && o.to != olds[0].to
  {
    forall o | o in olds[1..] ensures o in olds && o.to != olds[0].to {
      var y :| 0 <= y < |olds[1..]| && olds[1..][y] == o;
      assert olds[y + 1] == o;
    }
  }

  /** Every old move ends where its row ends; rows that were deleted lose their move. */
  lemma {:induction false} RedirectKept(olds: seq<Move>, rest: seq<Move>, touched: set<nat>, modified: set<nat>,
                                        c: Changes,
                                        f: nat, k: nat)
    requires Redirectable(olds, rest, c)
    ensures Move(f, k) in Redirect(olds, rest, touched, modified, c).kept
       <==> exists t :: Move(f, t) in olds && Linked(c, t, k)
    decreases |olds|
  {
    if olds != [] {
      var first, p := olds[0], FindFrom(rest, olds[0].to);
      RedirectStep(olds, rest, c);
      assert forall m :: m in olds <==> m == first || m in olds[1..];
      if p < |rest| {
        var m := rest[p];
        var t := if m.from in modified then touched + {m.to} else touched;
        RedirectKept(olds[1..], SwapOut(rest, p), t, modified, c, f, k);
        assert Linked(c, first.to, m.to);
        assert Move(first.from, first.to) in olds;
        if f == first.from && Linked(c, first.to, k) {
          LinkedInjective(c, first.to, k, first.to, m.to);
        }
      } else {
        RedirectKept(olds[1..], rest, touched, modified, c, f, k);
        assert Move(first.from, first.to) in olds;
      }
    }
  }

  lemma TailFroms(olds: seq<Move>)
    requires olds != [] && DistinctFroms(olds)
    ensures DistinctFroms(olds[1..])
  {
  }

  /** The moves kept for the later rows, on their own or after one for the first row. */
  lemma OneMoreFrom(olds: seq<Move>, tail: seq<Move>, to: nat)
    requires olds != [] && DistinctFroms(olds) && DistinctFroms(tail)
    requires forall m <- tail :: exists o :: o in olds[1..] && o.from == m.from
    ensures DistinctFroms([Move(olds[0].from, to)] + tail)
    ensures forall m <- [Move(olds[0].from, to)] + tail :: exists o :: o in olds && o.from == m.from
    ensures forall m <- tail :: exists o :: o in olds && o.from == m.from
  {
    assert olds[0] in olds;
    forall m | m in tail ensures m.from != olds[0].from && exists o :: o in olds && o.from == m.from {
      var o :| o in olds[1..] && o.from == m.from;
      var x :| 0 <= x < |olds[1..]| && olds[1..][x] == o;
      assert olds[x + 1] == o;
    }
  }

  lemma {:induction false} RedirectKeptFroms(olds: seq<Move>, rest: seq<Move>, touched: set<nat>, modified: set<nat>,
                                             c: Changes)
    requires DistinctFroms(olds)
    ensures var kept := Redirect(olds, rest, touched, modified, c).kept;
            DistinctFroms(kept) && forall m <- kept :: exists o :: o in olds && o.from == m.from
    decreases |olds|
  {
    if olds != [] {
      hide DistinctFroms, Survive;
      var first, p := olds[0], FindFrom(rest, olds[0].to);
      TailFroms(olds);
      if p < |rest| {
        var t := if rest[p].from in modified then touched + {rest[p].to} else touched;
        RedirectKeptFroms(olds[1..], SwapOut(rest, p), t, modified, c);
        OneMoreFrom(olds, Redirect(olds[1..], SwapOut(rest, p), t, modified, c).kept, rest[p].to);
      } else {
        RedirectKeptFroms(olds[1..], rest, touched, modified, c);
        OneMoreFrom(olds, Redirect(olds[1..], rest, touched, modified, c).kept,
                    Survive(c.deletions, c.insertions, first.to));
      }
    }
  }

  /** The new moves that remain are those of rows that no old move had brought there. */
  lemma {:induction false} RedirectRest(olds: seq<Move>, rest: seq<Move>, touched: set<nat>, modified: set<nat>,
                                        c: Changes)
    requires Redirectable(olds, rest, c)
    ensures var r := Redirect(olds, rest, touched, modified, c).rest;
            && DistinctFroms(r)
            && forall m :: m in r <==> m in rest && forall o <- olds :: o.to != m.from
    decreases |olds|
  {
    if olds != [] {
      var first, p := olds[0], FindFrom(rest, olds[0].to);
      RedirectStep(olds, rest, c);
      assert forall o :: o in olds <==> o == first || o in olds[1..];
      if p < |rest| {
        var t := if rest[p].from in modified then touched + {rest[p].to} else touched;
        SwapOutMembers(rest, p);
        RedirectRest(olds[1..], SwapOut(rest, p), t, modified, c);
      } else {
        FindFromAbsent(rest, first.to);
        RedirectRest(olds[1..], rest, touched, modified, c);
      }
    }
  }

  ghost predicate EndsAt(moves: seq<Move>, j: nat) {
    exists m :: m in moves && m.to == j
  }

  /** `k` is where a new move takes a modified row that one of `olds` had moved before. */
  ghost predicate MovedAgain(olds: seq<Move>, rest: seq<Move>, modified: set<nat>, k: nat) {
    exists m :: m in rest && m.to == k && m.from in modified && EndsAt(olds, m.from)
  }

  lemma MovedAgainStep(olds: seq<Move>, rest: seq<Move>, modified: set<nat>, c: Changes, k: nat)
    requires olds != [] && Redirectable(olds, rest, c)
    ensures var p := FindFrom(rest, olds[0].to);
            MovedAgain(olds, rest, modified, k) <==>
              if p < |rest| then
                (k == rest[p].to && rest[p].from in modified) || MovedAgain(olds[1..], SwapOut(rest, p), modified, k)
              else MovedAgain(olds[1..], rest, modified, k)
  {
    var first, p := olds[0], FindFrom(rest, olds[0].to);
    assert forall j :: EndsAt(olds, j) <==> j == first.to || EndsAt(olds[1..], j) by {
      assert forall o :: o in olds <==> o == first || o in olds[1..];
    }
    if p < |rest| {
      SwapOutMembers(rest, p);
      assert !EndsAt(olds[1..], first.to);
      assert rest[p] in rest;
    } else {
      FindFromAbsent(rest, first.to);
    }
  }

  /** Modified rows that were moved twice are marked at their final destination. */
  lemma {:induction false} RedirectTouched(olds: seq<Move>, rest: seq<Move>, touched: set<nat>, modified: set<nat>,
                                           c: Changes,
                                           k: nat)
    requires Redirectable(olds, rest, c)
    ensures k in Redirect(olds, rest, touched, modified, c).touched
       <==> k in touched || MovedAgain(olds, rest, modified, k)
    decreases |olds|
  {
    if olds != [] {
      var p := FindFrom(rest, olds[0].to);
      RedirectStep(olds, rest, c);
      MovedAgainStep(olds, rest, modified, c, k);
      if p < |rest| {
        var t := if rest[p].from in modified then touched + {rest[p].to} else touched;
        RedirectTouched(olds[1..], SwapOut(rest, p), t, modified, c, k);
      } else {
        RedirectTouched(olds[1..], rest, touched, modified, c, k);
      }
    }
  }
}
