/**
 Delivering notifications while the callbacks add and remove callbacks.

 Tokens are handed out in increasing order and callbacks are kept in the order in which they
 were added.  While a callback runs the lock is free, so that any actions may take place; what
 the callbacks will do is the script.
 */
module Delivery {
  import opened Sequences

  datatype Action = Add | Remove(token: nat)

  /** Who is registered, and the token to be given out next. */
  datatype Roster = Roster(tokens: seq<nat>, next: nat)

  // ---------------------------------------------------------------------------
  // What a script does to the roster

  function Drop(s: seq<nat>, t: nat): seq<nat> {
    if s == [] then [] else
      Drop(s[..|s| - 1], t) + if s[|s| - 1] == t then [] else [s[|s| - 1]]
  }

  function Act(r: Roster, a: Action): Roster {
    match a
    case Add => Roster(r.tokens + [r.next], r.next + 1)
    case Remove(t) => r.(tokens := Drop(r.tokens, t))
  }

  function ActAll(r: Roster, actions: seq<Action>): Roster {
    if actions == [] then r else Act(ActAll(r, actions[..|actions| - 1]), actions[|actions| - 1])
  }

  /** Outside of error delivery, removing a token that is not there stops the process. */
  ghost predicate Halts(r: Roster, actions: seq<Action>) {
    exists k :: 0 <= k < |actions| && actions[k].Remove? && actions[k].token !in ActAll(r, actions[..k]).tokens
  }

  /** How many callbacks are removed that were not packaged, that is from `limit` on. */
  function Strays(r: Roster, actions: seq<Action>, limit: nat): nat {
    if actions == [] then 0 else
      var before, a := actions[..|actions| - 1], actions[|actions| - 1];
      Strays(r, before, limit)
        + if a.Remove? && a.token >= limit && a.token in ActAll(r, before).tokens then 1 else 0
  }

  /** What happens in the `k`-th turn; with `own` the callback is removed once it has run. */
  function TurnActions(script: seq<seq<Action>>, k: nat, token: nat, own: bool): seq<Action> {
    (if k < |script| then script[k] else []) + if own then [Remove(token)] else []
  }

  /** The roster after the callbacks in `visited` have had their turns. */
  function After(r: Roster, visited: seq<nat>, script: seq<seq<Action>>, own: bool): Roster {
    if visited == [] then r else
      var n := |visited| - 1;
      ActAll(After(r, visited[..n], script, own), TurnActions(script, n, visited[n], own))
  }

  function StraysAfter(r: Roster, visited: seq<nat>, script: seq<seq<Action>>, own: bool, limit: nat): nat {
    if visited == [] then 0 else
      var n := |visited| - 1;
      StraysAfter(r, visited[..n], script, own, limit)
        + Strays(After(r, visited[..n], script, own), TurnActions(script, n, visited[n], own), limit)
  }

  function LastOf(visited: seq<nat>): int {
    if visited == [] then -1 else visited[|visited| - 1]
  }

  /** A callback that an earlier one, in the order of the tokens, has removed. */
  ghost predicate RemovedEarlier(t: nat, visited: seq<nat>, script: seq<seq<Action>>) {
    exists k :: 0 <= k < |visited| && k < |script| && Remove(t) in script[k] && visited[k] < t
  }

  /** How many tokens lie strictly between two bounds. */
  function Due(s: seq<nat>, lo: int, hi: int): nat {
    if s == [] then 0 else
      Due(s[..|s| - 1], lo, hi) + if lo < s[|s| - 1] < hi then 1 else 0
  }

  // ---------------------------------------------------------------------------
  // Tokens in order

  /** Exactly the first `k` tokens are below `bound`. */
  ghost predicate SplitAt(s: seq<nat>, k: int, bound: int) {
    && 0 <= k <= |s|
    && (forall x :: 0 <= x < k ==> s[x] < bound)
    && forall x :: k <= x < |s| ==> s[x] >= bound
  }

  lemma {:induction false} DueIs(s: seq<nat>, k: int, m: int, lo: int, hi: int)
    requires SplitAt(s, k, lo + 1) && SplitAt(s, m, hi)
    ensures Due(s, lo, hi) == if k <= m then m - k else 0
    decreases |s|
  {
    if s != [] {
      var n := |s| - 1;
      assert SplitAt(s[..n], if k <= n then k else n, lo + 1) && SplitAt(s[..n], if m <= n then m else n, hi);
      DueIs(s[..n], if k <= n then k else n, if m <= n then m else n, lo, hi);
      assert lo < s[n] <==> k <= n;
      assert s[n] < hi <==> m > n;
    }
  }

  lemma {:induction false} DropAbsent(s: seq<nat>, t: nat)
    requires t !in s
    ensures Drop(s, t) == s
  {
    if s != [] {
      DropAbsent(s[..|s| - 1], t);
    }
  }

  lemma {:induction false} DropIs(s: seq<nat>, k: nat)
    requires k < |s| && Increasing(s)
    ensures Drop(s, s[k]) == RemoveAt<nat>(s, k)
  {
    var n := |s| - 1;
    if k == n {
      DropAbsent(s[..n], s[n]);
      assert RemoveAt<nat>(s, n) == s[..n];
    } else {
      DropIs(s[..n], k);
      assert RemoveAt<nat>(s, k) == RemoveAt<nat>(s[..n], k) + [s[n]];
    }
  }

  lemma WithoutSplits(s: seq<nat>, k: nat, split: int, bound: int)
    requires k < |s| && Increasing(s) && SplitAt(s, split, bound)
    ensures Increasing(RemoveAt<nat>(s, k))
    ensures SplitAt(RemoveAt<nat>(s, k), if k < split then split - 1 else split, bound)
    ensures k < split <==> s[k] < bound
  {
  }

  lemma WithoutMembers(s: seq<nat>, k: nat, bound: nat)
    requires k < |s| && Increasing(s) && forall x :: 0 <= x < |s| ==> s[x] < bound
    ensures forall x :: 0 <= x < |RemoveAt<nat>(s, k)| ==> RemoveAt<nat>(s, k)[x] < bound
    ensures |RemoveAt<nat>(s, k)| == |s| - 1 && forall t :: t in RemoveAt<nat>(s, k) <==> t in s && t != s[k]
  {
    var r := RemoveAt<nat>(s, k);
    forall t ensures t in r <==> t in s && t != s[k] {
      if t in s && t != s[k] {
        var x :| 0 <= x < |s| && s[x] == t;
        assert r[if x < k then x else x - 1] == t;
      }
    }
  }

  // ---------------------------------------------------------------------------
  // One more turn

  /** Visited so far: packaged callbacks in order, and none that was still due has been passed over. */
  ghost predicate VisitedUpTo(visited: seq<nat>, packaged: set<nat>, gone: set<nat>) {
    && Increasing(visited)
    && (forall x :: 0 <= x < |visited| ==> visited[x] in packaged && visited[x] !in gone)
    && forall t <- packaged :: t <= LastOf(visited) ==> t in visited || t in gone
  }

  lemma OneLater(visited: seq<nat>, token: nat)
    requires Increasing(visited) && LastOf(visited) < token
    ensures Increasing(visited + [token]) && LastOf(visited + [token]) == token
    ensures forall x :: 0 <= x < |visited| ==> visited[x] <= LastOf(visited)
  {
  }

  /** The next visit: what lies between was gone, and what goes later was not yet due. */
  lemma VisitOne(visited: seq<nat>, packaged: set<nat>, gone: set<nat>, token: nat, gone': set<nat>)
    requires VisitedUpTo(visited, packaged, gone) && LastOf(visited) < token && token in packaged && token !in gone'
    requires forall t <- packaged :: LastOf(visited) < t < token ==> t in gone
    requires gone <= gone' && forall t <- gone' :: t in gone || t > token
    ensures VisitedUpTo(visited + [token], packaged, gone')
  {
    hide Increasing, LastOf;
    OneLater(visited, token);
    var now := visited + [token];
    forall x | 0 <= x < |now| ensures now[x] in packaged && now[x] !in gone' {
      assert x < |visited| ==> now[x] == visited[x] <= LastOf(visited);
    }
    assert forall t <- visited :: t in now;
  }

  /** What has been removed before its turn is what the script of the earlier turns says. */
  ghost predicate GoneByScript(gone: set<nat>, packaged: set<nat>, visited: seq<nat>, script: seq<seq<Action>>) {
    forall t: nat :: t in gone <==> t in packaged && RemovedEarlier(t, visited, script)
  }

  lemma GoneOne(gone: set<nat>, packaged: set<nat>, visited: seq<nat>, script: seq<seq<Action>>, own: bool,
                token: nat, gone': set<nat>)
    requires GoneByScript(gone, packaged, visited, script)
    requires forall t: nat :: t in gone' <==>
               t in gone || (t in packaged && t > token && Remove(t) in TurnActions(script, |visited|, token, own))
    ensures GoneByScript(gone', packaged, visited + [token], script)
  {
    var now, n := visited + [token], |visited|;
    forall t: nat ensures RemovedEarlier(t, now, script) <==>
      RemovedEarlier(t, visited, script) || (t > token && Remove(t) in TurnActions(script, n, token, own))
    {
      if RemovedEarlier(t, visited, script) {
        var k :| 0 <= k < |visited| && k < |script| && Remove(t) in script[k] && visited[k] < t;
        assert now[k] < t;
      }
      if t > token && Remove(t) in TurnActions(script, n, token, own) {
        assert n < |script| && Remove(t) in script[n] && now[n] < t;
      }
      if RemovedEarlier(t, now, script) {
        var k :| 0 <= k < |now| && k < |script| && Remove(t) in script[k] && now[k] < t;
        assert k < n ==> visited[k] < t;
      }
    }
  }

  lemma AfterOne(r: Roster, visited: seq<nat>, script: seq<seq<Action>>, own: bool, limit: nat, token: nat)
    ensures LastOf(visited + [token]) == token
    ensures After(r, visited + [token], script, own)
         == ActAll(After(r, visited, script, own), TurnActions(script, |visited|, token, own))
    ensures StraysAfter(r, visited + [token], script, own, limit)
         == StraysAfter(r, visited, script, own, limit)
            + Strays(After(r, visited, script, own), TurnActions(script, |visited|, token, own), limit)
  {
    assert (visited + [token])[..|visited|] == visited;
  }

  /** Each turn was begun while more callbacks were due than had been removed as strays. */
  ghost predicate WentOn(r: Roster, visited: seq<nat>, script: seq<seq<Action>>, own: bool, limit: nat, stray: nat) {
    forall k :: 0 <= k < |visited| ==>
      Due(After(r, visited[..k], script, own).tokens, LastOf(visited[..k]), limit)
        > stray + StraysAfter(r, visited[..k], script, own, limit)
  }

  lemma WentOnOne(r: Roster, visited: seq<nat>, script: seq<seq<Action>>, own: bool, limit: nat, stray: nat, token: nat)
    requires WentOn(r, visited, script, own, limit, stray)
    requires Due(After(r, visited, script, own).tokens, LastOf(visited), limit)
               > stray + StraysAfter(r, visited, script, own, limit)
    ensures WentOn(r, visited + [token], script, own, limit, stray)
  {
    hide After, StraysAfter, Due, LastOf;
    var now := visited + [token];
    forall k | 0 <= k < |now|
      ensures Due(After(r, now[..k], script, own).tokens, LastOf(now[..k]), limit)
                > stray + StraysAfter(r, now[..k], script, own, limit)
    {
      assert now[..k] == visited[..k];
      assert k == |visited| ==> now[..k] == visited;
    }
  }

  class CollectionNotifier {
    var callbacks: seq<nat>      // by token
    var callbackIndex: int       // -1 while no delivery is under way
    var callbackCount: int
    var nextToken: nat
    var error: bool

    ghost var packaged: set<nat> // the packaged tokens that were present when the pass began
    ghost var limit: nat         // every packaged token is below it, every later one is not
    ghost var last: int          // the callback visited last
    ghost var gone: set<nat>     // packaged callbacks that were removed before their turn
    ghost var stray: nat         // how many callbacks were removed that had not been packaged

    function Now(): Roster
      reads this
    {
      Roster(callbacks, nextToken)
    }

    /** The part that does not speak of a pass.  The count is short by the stray removals. */
    ghost predicate Stored()
      reads this
    {
      && Increasing(callbacks) && (forall x :: 0 <= x < |callbacks| ==> callbacks[x] < nextToken)
      && limit <= nextToken && SplitAt(callbacks, callbackCount + stray, limit)
    }

    /** What holds between any two operations. */
    ghost predicate Valid()
      reads this
    {
      && Stored() && -1 <= last < nextToken
      && SplitAt(callbacks, callbackIndex + 1, last + 1)
      && (forall t <- callbacks :: t < limit ==> t in packaged)
      && (forall t <- packaged :: t < limit && (t > last ==> t in callbacks || t in gone))
      && (forall t <- gone :: t in packaged && t !in callbacks)
    }

    constructor ()
      ensures Valid() && callbacks == [] && !error && nextToken == 0 && callbackIndex == -1
    {
      callbacks, callbackIndex, callbackCount, nextToken, error := [], -1, 0, 0, false;
      packaged, limit, last, gone, stray := {}, 0, -1, {}, 0;
    }

    /** Everything that is not about the present delivery. */
    twostate predicate SameDelivery()
      reads this
    {
      && packaged == old(packaged) && limit == old(limit) && error == old(error)
    }

    method AddCallback() returns (token: nat)
      requires Valid()
      modifies this
      ensures Valid() && SameDelivery() && last == old(last) && gone == old(gone) && stray == old(stray)
      ensures token == old(nextToken) && Now() == Act(old(Now()), Add)
      ensures callbackIndex == old(callbackIndex) && callbackCount == old(callbackCount)
    {
      token := nextToken;
      nextToken := nextToken + 1;
      callbacks := callbacks + [token];
    }

    method FindCallback(token: nat) returns (idx: nat)
      ensures idx <= |callbacks| && (idx < |callbacks| ==> callbacks[idx] == token)
      ensures idx == |callbacks| <==> token !in callbacks
    {
      idx := 0;
      while idx < |callbacks| && callbacks[idx] != token
        invariant 0 <= idx <= |callbacks| && token !in callbacks[..idx]
      {
        idx := idx + 1;
      }
      assert callbacks[..|callbacks|] == callbacks;
    }

    method RemoveFound(idx: nat)
      requires Valid() && idx < |callbacks|
      modifies this
      ensures Valid() && SameDelivery() && last == old(last) && nextToken == old(nextToken)
      ensures callbacks == RemoveAt<nat>(old(callbacks), idx) && |callbacks| == old(|callbacks|) - 1
      ensures var token := old(callbacks[idx]);
              && (forall t :: t in callbacks <==> t in old(callbacks) && t != token)
              && callbackCount == old(callbackCount) - 1
              && callbackIndex == old(callbackIndex) - (if token > last then 0 else 1)
              && gone == old(gone) + (if last < token < limit then {token} else {})
              && stray == old(stray) + if limit <= token then 1 else 0
    {
      hide Increasing, SplitAt, RemoveAt;
      var token := callbacks[idx];
      WithoutMembers(callbacks, idx, nextToken);
      WithoutSplits(callbacks, idx, callbackIndex + 1, last + 1);
      WithoutSplits(callbacks, idx, callbackCount + stray, limit);
      if callbackIndex != -1 {
        if callbackIndex >= idx {
          callbackIndex := callbackIndex - 1;
        }
      }
      callbackCount := callbackCount - 1;
      callbacks := RemoveAt<nat>(callbacks, idx);
      if token >= limit {
        stray := stray + 1;
      } else if token > last {
        gone := gone + {token};
      }
    }

    /** Outside of error delivery the token must be one that is present. */
    method RemoveCallback(token: nat)
      requires Valid() && (error || token in callbacks)
      modifies this
      ensures Valid() && SameDelivery() && last == old(last)
      ensures Now() == Act(old(Now()), Remove(token))
      ensures forall t :: t in callbacks <==> t in old(callbacks) && t != token
      ensures token in old(callbacks) ==> callbackCount == old(callbackCount) - 1
      ensures token in old(callbacks) ==> callbackIndex == old(callbackIndex) - if token > last then 0 else 1
      ensures token in old(callbacks) ==> |callbacks| == old(|callbacks|) - 1
      ensures token !in old(callbacks) ==> unchanged(this)
      ensures gone == old(gone) + if token in old(callbacks) && last < token < limit then {token} else {}
      ensures stray == old(stray) + if token in old(callbacks) && limit <= token then 1 else 0
    {
      hide Increasing, SplitAt, RemoveAt, Drop;
      var idx := FindCallback(token);
      if idx == |callbacks| {
        DropAbsent(callbacks, token);
        return;
      }
      DropIs(callbacks, idx);
      RemoveFound(idx);
    }

    /** Count the callbacks that are to be notified. */
    method PackageForDelivery()
      requires Valid() && callbackIndex == -1
      modifies this
      ensures Valid() && Now() == old(Now()) && error == old(error)
      ensures packaged == (set t | t in callbacks) && limit == nextToken && gone == {} && stray == 0
      ensures callbackCount == |callbacks| && last == -1 && callbackIndex == -1
    {
      callbackCount := |callbacks|;
      packaged := set t | t in callbacks;
      limit, last, gone, stray := nextToken, -1, {}, 0;
    }

    /** The loop condition; the count is unsigned, so that a negative one is very large. */
    predicate More()
      reads this
    {
      callbackCount < 0 || callbackIndex + 1 < callbackCount
    }

    /** Step to the next callback. */
    method VisitNext() returns (token: nat)
      requires Valid() && callbackIndex + 1 < |callbacks|
      modifies this
      ensures Valid() && SameDelivery() && Now() == old(Now())
      ensures gone == old(gone) && stray == old(stray) && callbackCount == old(callbackCount)
      ensures callbackIndex == old(callbackIndex) + 1
      ensures token == callbacks[callbackIndex] == last && old(last) < token
      ensures forall t <- packaged :: old(last) < t < token ==> t in gone
      ensures 0 <= callbackCount && callbackIndex < callbackCount ==> token in packaged
      ensures token in callbacks && IsNext(callbacks, old(last), token)
    {
      callbackIndex := callbackIndex + 1;
      token := callbacks[callbackIndex];
      assert token in callbacks;
      last := token;
    }

    /** What happens while a callback runs. */
    method RunActions(actions: seq<Action>) returns (stopped: bool)
      requires Valid()
      modifies this
      ensures Valid() && SameDelivery() && last == old(last)
      ensures stopped <==> !error && Halts(old(Now()), actions)
      ensures !stopped ==> Now() == ActAll(old(Now()), actions)
      ensures !stopped ==> stray == old(stray) + Strays(old(Now()), actions, limit)
      ensures !stopped ==> forall t: nat ::
                t in gone <==> t in old(gone) || (t in packaged && t > last && Remove(t) in actions)
      ensures callbackCount <= old(callbackCount)
      ensures (forall x :: 0 <= x < |actions| ==> actions[x].Remove?) ==>
                |callbacks| - callbackIndex <= old(|callbacks| - callbackIndex)
    {
      hide Increasing, SplitAt, Drop, Halts;
      ghost var r := Now();
      NoAction(r, actions, limit);
      for k := 0 to |actions|
        invariant Valid() && SameDelivery() && last == old(last) && callbackCount <= old(callbackCount)
        invariant Now() == ActAll(r, actions[..k])
        invariant stray == old(stray) + Strays(r, actions[..k], limit)
        invariant forall t: nat ::
                    t in gone <==> t in old(gone) || (t in packaged && t > last && Remove(t) in actions[..k])
        invariant !error ==> !Halts(r, actions[..k])
        invariant (forall x :: 0 <= x < |actions| ==> actions[x].Remove?) ==>
                  |callbacks| - callbackIndex <= old(|callbacks| - callbackIndex)
      {
        OneAction(r, actions, k, limit);
        match actions[k]
        case Add =>
          var token := AddCallback();
        case Remove(token) =>
          if !error && token !in callbacks {
            return true;
          }
          RemoveCallback(token);
      }
      assert actions[..|actions|] == actions;
      return false;
    }

    /** Between two passes over one package: what is packaged is what is still there of it. */
    ghost method StartPass()
      requires Stored() && callbackIndex == -1
      modifies this`packaged, this`last, this`gone
      ensures Valid() && last == -1 && gone == {}
      ensures forall t :: t in packaged <==> t in callbacks && t < limit
    {
      packaged, last, gone := set t | t in callbacks && t < limit, -1, {};
    }

    /** One turn of the loop: a callback is visited, things happen, and with `own` it is removed. */
    method Turn(script: seq<seq<Action>>, k: nat, own: bool) returns (token: nat, stopped: bool)
      requires Valid() && callbackIndex + 1 < |callbacks|
      modifies this
      ensures Valid() && SameDelivery() && old(last) < token == last && token in old(callbacks)
      ensures IsNext(old(callbacks), old(last), token)
      ensures forall t <- packaged :: old(last) < t < token ==> t in old(gone)
      ensures old(0 <= callbackCount && callbackIndex + 1 < callbackCount) ==> token in packaged
      ensures var actions := TurnActions(script, k, token, own);
              && (stopped <==> !error && Halts(old(Now()), actions))
              && (!stopped ==>
                    && Now() == ActAll(old(Now()), actions)
                    && stray == old(stray) + Strays(old(Now()), actions, limit)
                    && forall t: nat ::
                         t in gone <==> t in old(gone) || (t in packaged && t > token && Remove(t) in actions))
      ensures callbackCount <= old(callbackCount)
      ensures k >= |script| ==> |callbacks| - callbackIndex < old(|callbacks| - callbackIndex)
    {
      hide Increasing, SplitAt, Halts, ActAll, Strays;
      token := VisitNext();
      stopped := RunActions(TurnActions(script, k, token, own));
    }

    /** What is due, by index and count. */
    lemma DueNow()
      requires Valid()
      ensures var n := callbackCount + stray - callbackIndex - 1;
              Due(callbacks, last, limit) == if n >= 0 then n else 0
      ensures Due(callbacks, -1, limit) == callbackCount + stray
      ensures callbackCount >= 0 && More() ==> callbackIndex + 1 < |callbacks|
    {
      hide Increasing;
      DueIs(callbacks, callbackIndex + 1, callbackCount + stray, last, limit);
      DueIs(callbacks, 0, callbackCount + stray, -1, limit);
    }

    /** Where a pass stands. */
    ghost predicate InPass(r: Roster, visited: seq<nat>, script: seq<seq<Action>>, own: bool, stray0: nat)
      reads this
    {
      && Valid() && last == LastOf(visited)
      && (forall t :: t in packaged <==> t in r.tokens && t < limit)
      && Now() == After(r, visited, script, own)
      && stray == stray0 + StraysAfter(r, visited, script, own, limit)
      && (callbackCount >= 0 ==> VisitedUpTo(visited, packaged, gone) && WentOn(r, visited, script, own, limit, stray0))
      && GoneByScript(gone, packaged, visited, script) && InTurn(r, visited, script, own)
      && (callbackCount < 0 ==> Overran(r, limit, stray0, visited, script, own))
      && (stray0 == 0 && NoStrays(script, limit) ==> stray == 0)
    }

    method NextTurn(script: seq<seq<Action>>, visited: seq<nat>, own: bool, ghost r: Roster, ghost stray0: nat)
      returns (now: seq<nat>, stopped: bool)
      requires InPass(r, visited, script, own, stray0) && More() && callbackIndex + 1 < |callbacks|
      modifies this
      ensures limit == old(limit) && error == old(error)
      ensures |now| == |visited| + 1 && InTurn(r, now, script, own)
      ensures !stopped ==> InPass(r, now, script, own, stray0)
      ensures stopped ==>
                || Halted(r, limit, stray0, now, script, own, error)
                || Overran(r, limit, stray0, now, script, own)
      ensures stray0 == 0 && NoStrays(script, limit) && stopped ==> Halted(r, limit, stray0, now, script, own, error)
      ensures |visited| >= |script| ==> |callbacks| - callbackIndex < old(|callbacks| - callbackIndex)
    {
      hide Increasing, SplitAt, VisitedUpTo, WentOn, GoneByScript, After, StraysAfter, Halts, ActAll, Strays, Due,
           NoStrays, InTurn, IsNext, Overran, LastOf, TurnActions;
      DueNow();
      ghost var gone0, r0, proper := gone, Now(), callbackCount >= 0;
      var token;
      token, stopped := Turn(script, |visited|, own);
      now := visited + [token];
      InTurnOne(r, visited, script, own, token);
      if proper {
        WentOnOne(r, visited, script, own, limit, stray0, token);
      } else {
        OverranOne(r, limit, stray0, visited, script, own, token);
      }
      if stopped {
        assert now[..|now| - 1] == visited;
        return;
      }
      AfterOne(r, visited, script, own, limit, token);
      GoneOne(gone0, packaged, visited, script, own, token, gone);
      DueNow();
      if callbackCount < 0 {
        OverranNow(r, limit, stray0, now, script, own);
      } else {
        VisitOne(visited, packaged, gone0, token, gone);
      }
      if stray0 == 0 && NoStrays(script, limit) {
        NoStrayTurn(r0, script, |visited|, token, own, limit);
      }
    }

    /** The loop goes beyond the last callback only if more strays were removed than there are packaged ones left. */
    lemma BeyondTheLast(r: Roster, visited: seq<nat>, script: seq<seq<Action>>, own: bool, stray0: nat)
      requires InPass(r, visited, script, own, stray0) && More() && callbackIndex + 1 >= |callbacks|
      ensures Overran(r, limit, stray0, visited, script, own) && !(stray0 == 0 && NoStrays(script, limit))
    {
      hide Increasing, SplitAt, VisitedUpTo, WentOn, GoneByScript, After, StraysAfter, Due, NoStrays, InTurn, Overran,
           LastOf;
      DueNow();
    }

    /** One pass; with `own`, a callback is removed once it has run.  `Delivered` says who is visited. */
    method ForEachCallback(script: seq<seq<Action>>, own: bool) returns (visited: seq<nat>, stopped: bool)
      requires Valid() && callbackIndex == -1
      modifies this
      ensures limit == old(limit) && error == old(error)
      ensures !stopped ==>
                && Valid() && callbackIndex == -1
                && Delivered(old(Now()), limit, old(stray), visited, script, own)
                && Now() == After(old(Now()), visited, script, own)
                && stray == old(stray) + StraysAfter(old(Now()), visited, script, own, limit)
      ensures InTurn(old(Now()), visited, script, own)
      ensures stopped ==>
                || Halted(old(Now()), limit, old(stray), visited, script, own, error)
                || Overran(old(Now()), limit, old(stray), visited, script, own)
      ensures old(stray) == 0 && NoStrays(script, limit) && stopped ==>
                Halted(old(Now()), limit, old(stray), visited, script, own, error)
    {
      hide Increasing, SplitAt, VisitedUpTo, WentOn, GoneByScript, After, StraysAfter, Halted, Due, NoStrays, InTurn,
           Overran, Delivered, LastOf;
      ghost var r, stray0 := Now(), stray;
      StartPass();
      visited, stopped := [], false;
      PassBegins(r, packaged, script, own, limit, stray0);
      DueNow();
      if callbackCount < 0 {
        OverranNow(r, limit, stray0, visited, script, own);
      }
      while More()
        invariant limit == old(limit) && error == old(error) && InPass(r, visited, script, own, stray0)
        decreases if |visited| < |script| then |script| - |visited| else 0, |callbacks| - callbackIndex
      {
        if callbackIndex + 1 >= |callbacks| {
          BeyondTheLast(r, visited, script, own, stray0);
          return visited, true;
        }
        visited, stopped := NextTurn(script, visited, own, r, stray0);
        if stopped {
          return;
        }
      }
      DueNow();
      PassEnds(r, visited, script, own, stray0);
      callbackIndex := -1;
      StartPass();
    }

    lemma PassEnds(r: Roster, visited: seq<nat>, script: seq<seq<Action>>, own: bool, stray0: nat)
      requires Valid() && !More() && last == LastOf(visited)
      requires forall t :: t in packaged <==> t in r.tokens && t < limit
      requires Now() == After(r, visited, script, own)
      requires stray == stray0 + StraysAfter(r, visited, script, own, limit)
      requires VisitedUpTo(visited, packaged, gone) && WentOn(r, visited, script, own, limit, stray0)
      requires GoneByScript(gone, packaged, visited, script) && InTurn(r, visited, script, own)
      ensures Delivered(r, limit, stray0, visited, script, own)
    {
      hide SplitAt, After, StraysAfter, Due, WentOn, InTurn, RemovedEarlier;
      DueNow();
      forall t: nat | t in visited ensures t in packaged && t !in gone && t <= last {
        var x :| 0 <= x < |visited| && visited[x] == t;
      }
    }

    /** Delivery of an error, after which there is nobody left to notify.  Unless callbacks that were
        added meanwhile are removed again, each one present is visited exactly once, in order, except
        for those that an earlier one has removed. */
    method DeliverError(script: seq<seq<Action>>) returns (visited: seq<nat>, stopped: bool)
      requires Valid() && callbackIndex == -1
      modifies this
      ensures !stopped ==>
                && Valid() && callbackIndex == -1
                && Delivered(old(Now()), old(nextToken), 0, visited, script, true)
                && Now() == After(old(Now()), visited, script, true)
      ensures InTurn(old(Now()), visited, script, true)
      ensures stopped ==> Overran(old(Now()), old(nextToken), 0, visited, script, true)
      ensures NoStrays(script, old(nextToken)) ==>
                && !stopped && Increasing(visited)
                && (forall t: nat :: t in visited <==> t in old(callbacks) && !RemovedEarlier(t, visited, script))
                && forall t <- callbacks :: t >= old(nextToken)
      ensures NoRemovals(script) ==> !stopped && visited == old(callbacks)
    {
      hide Increasing, SplitAt, Delivered, After, StraysAfter, NoStrays, NoRemovals, Due, RemovedEarlier;
      error := true;
      PackageForDelivery();
      ghost var r := Now();
      visited, stopped := ForEachCallback(script, true);
      NoRemovalIsNoStray(script, r.next);
      if NoStrays(script, r.next) {
        AllDelivered(r, limit, visited, script, true);
      }
      if NoRemovals(script) {
        NobodyRemoved(r, visited, script, true);
      }
    }
  }

  // ---------------------------------------------------------------------------
  // What a pass amounts to

  /** Who is visited: the packaged callbacks, in order, but for those that an earlier one has removed
      and for those still due when no more were due than had been removed as strays. */
  ghost predicate Delivered(r: Roster, limit: nat, stray: nat, visited: seq<nat>, script: seq<seq<Action>>, own: bool) {
    var now := After(r, visited, script, own).tokens;
    && Increasing(visited)
    && (forall t: nat :: t in visited <==>
          && t in r.tokens && t < limit
          && !RemovedEarlier(t, visited, script)
          && !(t in now && t > LastOf(visited)))
    && InTurn(r, visited, script, own) && WentOn(r, visited, script, own, limit, stray)
    && Due(now, LastOf(visited), limit) <= stray + StraysAfter(r, visited, script, own, limit)
  }

  /** All turns were in order and rightly begun, and the last callback removed one that was not there. */
  ghost predicate Halted(r: Roster, limit: nat, stray: nat, visited: seq<nat>, script: seq<seq<Action>>, own: bool,
                         error: bool)
  {
    && !error && visited != []
    && WentOn(r, visited, script, own, limit, stray)
    && var n := |visited| - 1;
       Halts(After(r, visited[..n], script, own), TurnActions(script, n, visited[n], own))
  }

  /** At some point more callbacks had been removed as strays than were packaged and present. */
  ghost predicate Overran(r: Roster, limit: nat, stray: nat, visited: seq<nat>, script: seq<seq<Action>>, own: bool) {
    exists j :: 0 <= j <= |visited|
      && Due(After(r, visited[..j], script, own).tokens, -1, limit)
           < stray + StraysAfter(r, visited[..j], script, own, limit)
  }

  lemma OverranOne(r: Roster, limit: nat, stray: nat, visited: seq<nat>, script: seq<seq<Action>>, own: bool,
                   token: nat)
    requires Overran(r, limit, stray, visited, script, own)
    ensures Overran(r, limit, stray, visited + [token], script, own)
  {
    hide Due, After, StraysAfter;
    var j :| 0 <= j <= |visited|
      && Due(After(r, visited[..j], script, own).tokens, -1, limit)
           < stray + StraysAfter(r, visited[..j], script, own, limit);
    assert (visited + [token])[..j] == visited[..j];
  }

  lemma OverranNow(r: Roster, limit: nat, stray: nat, visited: seq<nat>, script: seq<seq<Action>>, own: bool)
    requires Due(After(r, visited, script, own).tokens, -1, limit) < stray + StraysAfter(r, visited, script, own, limit)
    ensures Overran(r, limit, stray, visited, script, own)
  {
    assert visited[..|visited|] == visited;
  }

  /** Every visit is to the first callback present after the one visited before. */
  ghost predicate InTurn(r: Roster, visited: seq<nat>, script: seq<seq<Action>>, own: bool) {
    forall k :: 0 <= k < |visited| ==>
      IsNext(After(r, visited[..k], script, own).tokens, LastOf(visited[..k]), visited[k])
  }

  ghost predicate IsNext(tokens: seq<nat>, last: int, token: nat) {
    token in tokens && last < token && forall x :: 0 <= x < |tokens| && tokens[x] > last ==> tokens[x] >= token
  }

  lemma InTurnOne(r: Roster, visited: seq<nat>, script: seq<seq<Action>>, own: bool, token: nat)
    requires InTurn(r, visited, script, own)
    requires IsNext(After(r, visited, script, own).tokens, LastOf(visited), token)
    ensures InTurn(r, visited + [token], script, own)
  {
    hide After, LastOf, IsNext;
    var now := visited + [token];
    forall k | 0 <= k < |now| ensures IsNext(After(r, now[..k], script, own).tokens, LastOf(now[..k]), now[k]) {
      assert now[..k] == visited[..k];
      assert k == |visited| ==> now[..k] == visited;
    }
  }

  /** No callback that was not packaged is ever removed. */
  ghost predicate NoStrays(script: seq<seq<Action>>, limit: nat) {
    forall k :: 0 <= k < |script| ==> RemovesBelow(script[k], limit)
  }

  ghost predicate RemovesBelow(actions: seq<Action>, limit: nat) {
    forall x :: 0 <= x < |actions| && actions[x].Remove? ==> actions[x].token < limit
  }

  ghost predicate NoRemovals(script: seq<seq<Action>>) {
    forall k :: 0 <= k < |script| ==> OnlyAdds(script[k])
  }

  ghost predicate OnlyAdds(actions: seq<Action>) {
    forall x :: 0 <= x < |actions| ==> actions[x].Add?
  }

  lemma PassBegins(r: Roster, packaged: set<nat>, script: seq<seq<Action>>, own: bool, limit: nat, stray: nat)
    ensures VisitedUpTo([], packaged, {}) && WentOn(r, [], script, own, limit, stray)
    ensures GoneByScript({}, packaged, [], script)
    ensures LastOf([]) == -1 && InTurn(r, [], script, own)
    ensures After(r, [], script, own) == r && StraysAfter(r, [], script, own, limit) == 0
  {
  }

  lemma {:induction false} NoStraysIn(r: Roster, actions: seq<Action>, limit: nat)
    requires RemovesBelow(actions, limit)
    ensures Strays(r, actions, limit) == 0
  {
    if actions != [] {
      NoStraysIn(r, actions[..|actions| - 1], limit);
    }
  }

  lemma NoStrayTurn(r: Roster, script: seq<seq<Action>>, k: nat, token: nat, own: bool, limit: nat)
    requires NoStrays(script, limit) && (own ==> token < limit)
    ensures Strays(r, TurnActions(script, k, token, own), limit) == 0
  {
    NoStraysIn(r, TurnActions(script, k, token, own), limit);
  }

  lemma {:induction false} NoStraysAtAll(r: Roster, visited: seq<nat>, script: seq<seq<Action>>, own: bool, limit: nat)
    requires NoStrays(script, limit) && forall x :: 0 <= x < |visited| ==> visited[x] < limit
    ensures StraysAfter(r, visited, script, own, limit) == 0
  {
    if visited != [] {
      var n := |visited| - 1;
      NoStraysAtAll(r, visited[..n], script, own, limit);
      NoStrayTurn(After(r, visited[..n], script, own), script, n, visited[n], own, limit);
    }
  }

  lemma {:induction false} DropMembers(s: seq<nat>, t: nat)
    ensures forall u :: u in Drop(s, t) <==> u in s && u != t
  {
    if s != [] {
      DropMembers(s[..|s| - 1], t);
      assert s == s[..|s| - 1] + [s[|s| - 1]];
    }
  }

  /** Of the old callbacks, those that were not removed are there, and only those. */
  lemma {:induction false} ActMembers(r: Roster, actions: seq<Action>, t: nat)
    requires t < r.next
    ensures r.next <= ActAll(r, actions).next
    ensures t in ActAll(r, actions).tokens <==> t in r.tokens && Remove(t) !in actions
  {
    if actions != [] {
      var n := |actions| - 1;
      ActMembers(r, actions[..n], t);
      assert actions == actions[..n] + [actions[n]];
      match actions[n]
      case Add =>
      case Remove(u) => DropMembers(ActAll(r, actions[..n]).tokens, u);
    }
  }

  lemma {:induction false} AfterMembers(r: Roster, visited: seq<nat>, script: seq<seq<Action>>, own: bool, t: nat)
    requires t < r.next
    ensures r.next <= After(r, visited, script, own).next
    ensures t in After(r, visited, script, own).tokens <==>
              t in r.tokens && forall k :: 0 <= k < |visited| ==> Remove(t) !in TurnActions(script, k, visited[k], own)
  {
    hide TurnActions;
    if visited != [] {
      var n := |visited| - 1;
      AfterMembers(r, visited[..n], script, own, t);
      ActMembers(After(r, visited[..n], script, own), TurnActions(script, n, visited[n], own), t);
      assert forall k :: 0 <= k < n ==> visited[..n][k] == visited[k];
    }
  }

  lemma {:induction false} DueNone(s: seq<nat>, lo: int, hi: int)
    ensures Due(s, lo, hi) == 0 <==> forall x :: 0 <= x < |s| ==> !(lo < s[x] < hi)
  {
    if s != [] {
      DueNone(s[..|s| - 1], lo, hi);
      assert forall x :: 0 <= x < |s| - 1 ==> s[..|s| - 1][x] == s[x];
    }
  }

  /** Those passed over are those still due in the end. */
  lemma PassedOverAreDue(r: Roster, limit: nat, stray: nat, visited: seq<nat>, script: seq<seq<Action>>, own: bool)
    requires Delivered(r, limit, stray, visited, script, own) && limit <= r.next
    ensures (forall t <- r.tokens :: t < limit && !RemovedEarlier(t, visited, script) ==> t in visited)
       <==> Due(After(r, visited, script, own).tokens, LastOf(visited), limit) == 0
  {
    hide After, Due, WentOn, InTurn, StraysAfter;
    var now := After(r, visited, script, own).tokens;
    DueNone(now, LastOf(visited), limit);
    assert forall x :: 0 <= x < |now| ==> now[x] in now;
    forall t: nat | t in now && LastOf(visited) < t < limit
      ensures t in r.tokens && !RemovedEarlier(t, visited, script) && t !in visited
    {
      StillThere(r, visited, script, own, t);
    }
  }

  lemma StillThere(r: Roster, visited: seq<nat>, script: seq<seq<Action>>, own: bool, t: nat)
    requires t < r.next && t in After(r, visited, script, own).tokens
    ensures t in r.tokens && !RemovedEarlier(t, visited, script)
    ensures own ==> t !in visited
  {
    hide RemovedEarlier, TurnActions, After;
    AfterMembers(r, visited, script, own, t);
    RemovalsAreActions(visited, script, own, t);
  }

  lemma RemovalsAreActions(visited: seq<nat>, script: seq<seq<Action>>, own: bool, t: nat)
    ensures RemovedEarlier(t, visited, script) || (own && t in visited) ==>
              exists k :: 0 <= k < |visited| && Remove(t) in TurnActions(script, k, visited[k], own)
  {
    if RemovedEarlier(t, visited, script) {
      var k :| 0 <= k < |visited| && k < |script| && Remove(t) in script[k] && visited[k] < t;
      assert Remove(t) in TurnActions(script, k, visited[k], own);
    }
    if own && t in visited {
      var k :| 0 <= k < |visited| && visited[k] == t;
      assert Remove(t) in TurnActions(script, k, visited[k], own);
    }
  }

  /** Without stray removals nobody is passed over, and with `own` nobody is left. */
  lemma AllDelivered(r: Roster, limit: nat, visited: seq<nat>, script: seq<seq<Action>>, own: bool)
    requires Delivered(r, limit, 0, visited, script, own) && NoStrays(script, limit) && limit <= r.next
    ensures Increasing(visited)
    ensures forall t: nat :: t in visited <==> t in r.tokens && t < limit && !RemovedEarlier(t, visited, script)
    ensures own ==> forall t <- After(r, visited, script, own).tokens :: t >= limit
  {
    hide After, Due, WentOn, InTurn, StraysAfter, RemovedEarlier, NoStrays;
    assert forall x :: 0 <= x < |visited| ==> visited[x] in visited;
    NoStraysAtAll(r, visited, script, own, limit);
    PassedOverAreDue(r, limit, 0, visited, script, own);
    if own {
      forall t | t in After(r, visited, script, own).tokens ensures t >= limit {
        if t < limit {
          StillThere(r, visited, script, own, t);
        }
      }
    }
  }

  lemma NoRemovalIsNoStray(script: seq<seq<Action>>, limit: nat)
    ensures NoRemovals(script) ==> NoStrays(script, limit)
  {
    if NoRemovals(script) {
      forall k | 0 <= k < |script| ensures RemovesBelow(script[k], limit) {
        assert OnlyAdds(script[k]);
      }
    }
  }

  /** If nothing is removed, everybody is visited, in order. */
  lemma NobodyRemoved(r: Roster, visited: seq<nat>, script: seq<seq<Action>>, own: bool)
    requires Delivered(r, r.next, 0, visited, script, own) && NoRemovals(script)
    requires Increasing(r.tokens) && forall t <- r.tokens :: t < r.next
    ensures visited == r.tokens && NoStrays(script, r.next)
  {
    hide After, Due, WentOn, InTurn, StraysAfter, Increasing;
    NoRemovalIsNoStray(script, r.next);
    AllDelivered(r, r.next, visited, script, own);
    forall t: nat ensures !RemovedEarlier(t, visited, script) {
      NotRemoved(script, visited, t);
    }
    SameIncreasing(visited, r.tokens);
  }

  lemma NotRemoved(script: seq<seq<Action>>, visited: seq<nat>, t: nat)
    requires NoRemovals(script)
    ensures !RemovedEarlier(t, visited, script)
  {
    forall k | 0 <= k < |script| ensures Remove(t) !in script[k] {
      assert OnlyAdds(script[k]);
    }
  }

  lemma NoAction(r: Roster, actions: seq<Action>, limit: nat)
    ensures ActAll(r, actions[..0]) == r && Strays(r, actions[..0], limit) == 0 && !Halts(r, actions[..0])
  {
  }

  lemma OneAction(r: Roster, actions: seq<Action>, k: nat, limit: nat)
    requires k < |actions|
    ensures actions[..k + 1] == actions[..k] + [actions[k]]
    ensures ActAll(r, actions[..k + 1]) == Act(ActAll(r, actions[..k]), actions[k])
    ensures Strays(r, actions[..k + 1], limit) == Strays(r, actions[..k], limit)
              + (var a := actions[k];
                 if a.Remove? && a.token >= limit && a.token in ActAll(r, actions[..k]).tokens then 1 else 0)
    ensures Halts(r, actions[..k + 1]) <==>
              Halts(r, actions[..k]) || (actions[k].Remove? && actions[k].token !in ActAll(r, actions[..k]).tokens)
    ensures actions[k].Remove? && actions[k].token !in ActAll(r, actions[..k]).tokens ==> Halts(r, actions)
  {
    var now, was := actions[..k + 1], actions[..k];
    assert now == was + [actions[k]] && now[..k] == was;
    assert forall j :: 0 <= j < k ==> now[j] == was[j] == actions[j] && now[..j] == was[..j] == actions[..j];
    if Halts(r, was) {
      var j :| 0 <= j < k && was[j].Remove? && was[j].token !in ActAll(r, was[..j]).tokens;
      assert now[j].Remove? && now[j].token !in ActAll(r, now[..j]).tokens;
    }
  }

  /** A callback that adds another and removes it again keeps a packaged one from being visited. */
  method StrayRemovalSkips() returns (n: CollectionNotifier, visited: nat)
    ensures fresh(n) && n.Valid() && n.packaged == {0, 1} && n.gone == {} && n.stray == 1
    ensures visited == 0 && 1 in n.callbacks && n.last == 0 && !n.More()
  {
    hide Drop, Increasing, SplitAt, CollectionNotifier.Valid;
    n := new CollectionNotifier();
    var first := n.AddCallback();
    var second := n.AddCallback();
    n.PackageForDelivery();
    assert n.callbacks == [0, 1];
    visited := n.VisitNext();
    var added := n.AddCallback();
    n.RemoveCallback(added);
  }
}
