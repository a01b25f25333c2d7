/**
 When a delivery with stray removals passes nobody over: a condition on the roster and the script.

 The full pass is the one that does not count: it visits the next packaged callback as long as
 there is one.  What it visits follows from the roster and the script alone.
 */
module FullPass {
  import opened Wrappers
  import opened Sequences
  import opened Delivery

  /** The least token beyond `last`. */
  function FirstAfter(tokens: seq<nat>, last: int): (t: Option<nat>)
    ensures t.Some? ==> IsNext(tokens, last, t.value)
    ensures t.None? ==> forall x :: 0 <= x < |tokens| ==> tokens[x] <= last
  {
    if tokens == [] then None else
      var n := |tokens| - 1;
      var t := FirstAfter(tokens[..n], last);
      assert forall x :: 0 <= x < n ==> tokens[..n][x] == tokens[x];
      if tokens[n] > last && (t.None? || tokens[n] < t.value) then
        assert tokens[n] in tokens;
        Some(tokens[n])
      else t
  }

  function FullFrom(r: Roster, limit: nat, visited: seq<nat>, script: seq<seq<Action>>, own: bool): seq<nat>
    decreases if LastOf(visited) < limit then limit - LastOf(visited) else 0
  {
    match FirstAfter(After(r, visited, script, own).tokens, LastOf(visited))
    case Some(t) => if t < limit then FullFrom(r, limit, visited + [t], script, own) else visited
    case None => visited
  }

  /** Everybody the pass would visit if it did not count. */
  function FullPass(r: Roster, limit: nat, script: seq<seq<Action>>, own: bool): seq<nat> {
    FullFrom(r, limit, [], script, own)
  }

  ghost predicate IsFullPass(r: Roster, limit: nat, full: seq<nat>, script: seq<seq<Action>>, own: bool) {
    && InTurn(r, full, script, own)
    && (forall x :: 0 <= x < |full| ==> full[x] < limit)
    && Due(After(r, full, script, own).tokens, LastOf(full), limit) == 0
  }

  lemma {:induction false} FullFromIsFull(r: Roster, limit: nat, visited: seq<nat>, script: seq<seq<Action>>, own: bool)
    requires InTurn(r, visited, script, own) && forall x :: 0 <= x < |visited| ==> visited[x] < limit
    ensures IsFullPass(r, limit, FullFrom(r, limit, visited, script, own), script, own)
    decreases if LastOf(visited) < limit then limit - LastOf(visited) else 0
  {
    hide InTurn, After, Due, IsNext;
    var tokens, last := After(r, visited, script, own).tokens, LastOf(visited);
    DueNone(tokens, last, limit);
    var t := FirstAfter(tokens, last);
    if t.Some? && t.value < limit {
      InTurnOne(r, visited, script, own, t.value);
      IsNextBeyond(tokens, last, t.value);
      FullFromIsFull(r, limit, visited + [t.value], script, own);
    } else if t.Some? {
      IsNextBeyond(tokens, last, t.value);
    }
  }

  lemma IsNextBeyond(tokens: seq<nat>, last: int, token: nat)
    requires IsNext(tokens, last, token)
    ensures last < token && forall x :: 0 <= x < |tokens| ==> !(last < tokens[x] < token)
    ensures exists x :: 0 <= x < |tokens| && tokens[x] == token
  {
  }

  lemma FullPassIsFull(r: Roster, limit: nat, script: seq<seq<Action>>, own: bool)
    ensures IsFullPass(r, limit, FullPass(r, limit, script, own), script, own)
  {
    FullFromIsFull(r, limit, [], script, own);
  }

  lemma SameNext(tokens: seq<nat>, last: int, t: nat, u: nat)
    requires IsNext(tokens, last, t) && IsNext(tokens, last, u)
    ensures t == u
  {
  }

  /** Visits in turn are determined, one after another. */
  lemma {:induction false} InTurnAgree(r: Roster, v: seq<nat>, w: seq<nat>, script: seq<seq<Action>>, own: bool, k: nat)
    requires InTurn(r, v, script, own) && InTurn(r, w, script, own) && k <= |v| && k <= |w|
    ensures v[..k] == w[..k]
  {
    hide After, LastOf, IsNext;
    if k > 0 {
      InTurnAgree(r, v, w, script, own, k - 1);
      SameNext(After(r, v[..k - 1], script, own).tokens, LastOf(v[..k - 1]), v[k - 1], w[k - 1]);
      assert v[..k] == v[..k - 1] + [v[k - 1]] && w[..k] == w[..k - 1] + [w[k - 1]];
    }
  }

  /** A pass in turn that stays below the limit does not get beyond a full one. */
  lemma WithinFull(r: Roster, limit: nat, v: seq<nat>, full: seq<nat>, script: seq<seq<Action>>, own: bool)
    requires InTurn(r, v, script, own) && forall x :: 0 <= x < |v| ==> v[x] < limit
    requires IsFullPass(r, limit, full, script, own)
    ensures v <= full
    ensures |v| < |full| ==> Due(After(r, v, script, own).tokens, LastOf(v), limit) > 0
  {
    hide After, LastOf, IsNext, Due;
    var k := if |v| <= |full| then |v| else |full|;
    InTurnAgree(r, v, full, script, own, k);
    if |v| > |full| {
      assert v[..k] == full == full[..k];
      NextIsDue(After(r, full, script, own).tokens, LastOf(full), limit, v[k]);
    } else if |v| < |full| {
      assert full[..k] == v == v[..k];
      NextIsDue(After(r, v, script, own).tokens, LastOf(v), limit, full[k]);
    }
  }

  lemma NextIsDue(tokens: seq<nat>, last: int, limit: nat, token: nat)
    requires IsNext(tokens, last, token) && token < limit
    ensures Due(tokens, last, limit) > 0
  {
    hide Due;
    DueNone(tokens, last, limit);
    IsNextBeyond(tokens, last, token);
  }

  lemma FullPassUnique(r: Roster, limit: nat, full: seq<nat>, script: seq<seq<Action>>, own: bool)
    requires IsFullPass(r, limit, full, script, own)
    ensures full == FullPass(r, limit, script, own)
  {
    hide InTurn, After, Due, FullPass;
    FullPassIsFull(r, limit, script, own);
    WithinFull(r, limit, full, FullPass(r, limit, script, own), script, own);
    WithinFull(r, limit, FullPass(r, limit, script, own), full, script, own);
  }

  /** A delivery visits the beginning of the full pass, all of it if and only if at every turn of the
      full pass more callbacks are due than there have been stray removals. */
  lemma FullyDeliveredIff(r: Roster, limit: nat, stray: nat, visited: seq<nat>, script: seq<seq<Action>>, own: bool)
    requires Delivered(r, limit, stray, visited, script, own)
    ensures var full := FullPass(r, limit, script, own);
            && visited <= full
            && (visited == full <==> WentOn(r, full, script, own, limit, stray))
            && (visited == full <==> Due(After(r, visited, script, own).tokens, LastOf(visited), limit) == 0)
  {
    hide InTurn, After, Due, StraysAfter, LastOf, FullPass, RemovedEarlier, Increasing;
    var full := FullPass(r, limit, script, own);
    FullPassIsFull(r, limit, script, own);
    forall x | 0 <= x < |visited| ensures visited[x] < limit {
      assert visited[x] in visited;
    }
    WithinFull(r, limit, visited, full, script, own);
    var n := |visited|;
    if n < |full| {
      assert full[..n] == visited;
    }
  }

  /** Nobody is passed over if and only if the roster and the script are such that at every turn of
      the full pass more callbacks are due than there have been stray removals. */
  lemma NobodyPassedOverIff(r: Roster, limit: nat, stray: nat, visited: seq<nat>, script: seq<seq<Action>>, own: bool)
    requires Delivered(r, limit, stray, visited, script, own) && limit <= r.next
    ensures (forall t <- r.tokens :: t < limit && !RemovedEarlier(t, visited, script) ==> t in visited)
       <==> WentOn(r, FullPass(r, limit, script, own), script, own, limit, stray)
  {
    hide Delivered, After, Due, WentOn, RemovedEarlier, FullPass, LastOf;
    FullyDeliveredIff(r, limit, stray, visited, script, own);
    PassedOverAreDue(r, limit, stray, visited, script, own);
  }

  // ---------------------------------------------------------------------------
  // The instance with two callbacks

  const TWO: Roster := Roster([0, 1], 2)

  /** The first callback adds another one and removes it. */
  const STRAY_SCRIPT: seq<seq<Action>> := [[Add, Remove(2)]]

  lemma FirstTurn()
    ensures After(TWO, [0], STRAY_SCRIPT, false) == Roster([0, 1], 3)
    ensures StraysAfter(TWO, [0], STRAY_SCRIPT, false, 2) == 1
  {
    hide ActAll, Strays;
    var actions := [Add, Remove(2)];
    assert [0][..0] == [] && TurnActions(STRAY_SCRIPT, 0, 0, false) == actions;
    TwoActions();
  }

  lemma TwoActions()
    ensures ActAll(TWO, [Add, Remove(2)]) == Roster([0, 1], 3) && Strays(TWO, [Add, Remove(2)], 2) == 1
  {
    hide ActAll, Strays, Drop, Halts;
    var actions := [Add, Remove(2)];
    NoAction(TWO, actions, 2);
    OneAction(TWO, actions, 0, 2);
    OneAction(TWO, actions, 1, 2);
    assert actions[..2] == actions && [0, 1] + [2] == [0, 1, 2];
    DropTwo();
    assert ActAll(TWO, actions[..1]).tokens == [0, 1, 2];
  }

  lemma DropTwo()
    ensures Drop([0, 1, 2], 2) == [0, 1]
  {
    DropIs([0, 1, 2], 2);
  }

  lemma SecondTurn()
    ensures After(TWO, [0, 1], STRAY_SCRIPT, false) == Roster([0, 1], 3)
  {
    hide Strays, StraysAfter;
    assert [0, 1][..1] == [0] && TurnActions(STRAY_SCRIPT, 1, 1, false) == [];
    FirstTurn();
  }

  lemma DueOfTwo()
    ensures Due([0, 1], -1, 2) == 2 && Due([0, 1], 0, 2) == 1 && Due([0, 1], 1, 2) == 0
  {
    assert [0, 1][..1] == [0] && [0][..0] == [];
  }

  lemma FullPassOfTwo()
    ensures FullPass(TWO, 2, STRAY_SCRIPT, false) == [0, 1]
    ensures !WentOn(TWO, [0, 1], STRAY_SCRIPT, false, 2, 0)
  {
    hide FullPass, After, Due, StraysAfter;
    FirstTurn();
    SecondTurn();
    DueOfTwo();
    NothingYet();
    assert [0, 1][..1] == [0] && [0, 1][..0] == [];
    assert InTurn(TWO, [0, 1], STRAY_SCRIPT, false);
    FullPassUnique(TWO, 2, [0, 1], STRAY_SCRIPT, false);
  }

  lemma NothingYet()
    ensures After(TWO, [], STRAY_SCRIPT, false) == TWO && StraysAfter(TWO, [], STRAY_SCRIPT, false, 2) == 0
  {
  }

  /** With this script every pass visits only the first of the two, although nobody removes the second. */
  lemma StrayScriptVisitsOne(visited: seq<nat>)
    requires Delivered(TWO, 2, 0, visited, STRAY_SCRIPT, false)
    ensures visited == [0]
    ensures !RemovedEarlier(1, visited, STRAY_SCRIPT)
  {
    OneIsNotRemoved(visited);
    hide FullPass, After, Due, StraysAfter, RemovedEarlier, InTurn, WentOn;
    FullPassOfTwo();
    FullyDeliveredIff(TWO, 2, 0, visited, STRAY_SCRIPT, false);
    NothingYet();
    DueOfTwo();
    assert visited <= [0, 1] && visited != [0, 1] && visited != [];
    assert visited == [0, 1][..|visited|];
  }

  lemma OneIsNotRemoved(visited: seq<nat>)
    ensures !RemovedEarlier(1, visited, STRAY_SCRIPT)
  {
  }
}
