/**
 What the search for common blocks leaves out: windows that it does not enter.
 */
module MissedBlocks {
  import opened Matching

  /** A common key of the window. */
  predicate Pair(a: seq<int>, b: seq<int>, w: Window, i: nat, j: nat) {
    w.begin1 <= i < w.end1 && w.begin2 <= j < w.end2 && i < |a| && j < |b| && a[i] == b[j]
  }

  /** In both sequences the pair comes before the block, or in both after it. */
  predicate InOrderWith(m: Match, i: nat, j: nat) {
    (i < m.i && j < m.j) || (m.i + m.size <= i && m.j + m.size <= j)
  }

  /** The pair could stay in place together with all of the blocks. */
  predicate CouldStay(found: seq<Match>, i: nat, j: nat) {
    forall m <- found :: InOrderWith(m, i, j)
  }

  /** No common key is left that could stay in place, too. */
  ghost predicate Maximal(a: seq<int>, b: seq<int>, w: Window, found: seq<Match>) {
    forall i: nat, j: nat :: Pair(a, b, w, i, j) ==> !CouldStay(found, i, j)
  }

  /** What lies to the right of a block and is not searched. */
  function Skipped(w: Window, t: Search): seq<Window>
    decreases t
  {
    match t
    case Ended => []
    case Around(left, m, right) =>
      Skipped(LeftOf(w, m), left) + if GoesRight(w, m) then Skipped(RightOf(w, m), right) else [RightOf(w, m)]
  }

  lemma PairIsMatch(a: seq<int>, b: seq<int>, w: Window, i: nat, j: nat)
    requires w.Fits(a, b) && Pair(a, b, w, i, j)
    ensures IsMatch(a, b, w, Match(i, j, 1))
  {
    assert a[i..i + 1] == [a[i]] && b[j..j + 1] == [b[j]];
  }

  lemma {:induction false} FoundInside(a: seq<int>, b: seq<int>, w: Window, t: Search, m: Match)
    requires w.Fits(a, b) && IsSearch(a, b, w, t) && m in Found(t)
    ensures w.Holds(m)
  {
    SearchIsChain(a, b, w, t);
  }

  /** A common key is missed, though it could stay, exactly when it lies in a window that is skipped. */
  lemma {:induction false} MissedAt(a: seq<int>, b: seq<int>, w: Window, t: Search, i: nat, j: nat)
    requires w.Fits(a, b) && IsSearch(a, b, w, t)
    ensures Pair(a, b, w, i, j) && CouldStay(Found(t), i, j) <==> exists s :: s in Skipped(w, t) && Pair(a, b, s, i, j)
    decreases t, 1
  {
    match t
    case Ended =>
      if Pair(a, b, w, i, j) {
        PairIsMatch(a, b, w, i, j);
      }
    case Around(left, m, right) =>
      MissedLeft(a, b, w, t, i, j);
      MissedRight(a, b, w, t, i, j);
      AroundDecides(a, b, w, t, i, j);
  }

  /** To the left of the block. */
  lemma {:induction false} MissedLeft(a: seq<int>, b: seq<int>, w: Window, t: Search, i: nat, j: nat)
    requires w.Fits(a, b) && IsSearch(a, b, w, t) && t.Around?
    ensures Pair(a, b, LeftOf(w, t.m), i, j) && CouldStay(Found(t.left), i, j)
       <==> exists s :: s in Skipped(LeftOf(w, t.m), t.left) && Pair(a, b, s, i, j)
    decreases t, 0
  {
    if GoesLeft(w, t.m) {
      MissedAt(a, b, LeftOf(w, t.m), t.left, i, j);
    }
  }

  /** To the right of it. */
  lemma {:induction false} MissedRight(a: seq<int>, b: seq<int>, w: Window, t: Search, i: nat, j: nat)
    requires w.Fits(a, b) && IsSearch(a, b, w, t) && t.Around?
    ensures Pair(a, b, RightOf(w, t.m), i, j) && CouldStay(Found(t.right), i, j)
       <==> exists s :: Pair(a, b, s, i, j)
              && s in if GoesRight(w, t.m) then Skipped(RightOf(w, t.m), t.right) else [RightOf(w, t.m)]
    decreases t, 0
  {
    if GoesRight(w, t.m) {
      MissedAt(a, b, RightOf(w, t.m), t.right, i, j);
    } else {
      assert RightOf(w, t.m) in [RightOf(w, t.m)];
    }
  }

  /** A pair could stay if it could on its side of the block. */
  lemma AroundDecides(a: seq<int>, b: seq<int>, w: Window, t: Search, i: nat, j: nat)
    requires w.Fits(a, b) && IsSearch(a, b, w, t) && t.Around?
    ensures Pair(a, b, w, i, j) && CouldStay(Found(t), i, j)
       <==> (Pair(a, b, LeftOf(w, t.m), i, j) && CouldStay(Found(t.left), i, j))
            || (Pair(a, b, RightOf(w, t.m), i, j) && CouldStay(Found(t.right), i, j))
  {
    hide Common;
    assert t.m in Found(t);
    forall m ensures m in Found(t) <==> m in Found(t.left) || m == t.m || m in Found(t.right) {
    }
    forall m | m in Found(t.left) ensures LeftOf(w, t.m).Holds(m) {
      FoundInside(a, b, LeftOf(w, t.m), t.left, m);
    }
    forall m | m in Found(t.right) ensures RightOf(w, t.m).Holds(m) {
      FoundInside(a, b, RightOf(w, t.m), t.right, m);
    }
  }

  ghost predicate HasPair(a: seq<int>, b: seq<int>, w: Window) {
    exists i: nat, j: nat :: Pair(a, b, w, i, j)
  }

  /** The blocks leave nothing out if and only if no window that was skipped has a common key. */
  lemma MaximalIff(a: seq<int>, b: seq<int>, w: Window, t: Search)
    requires w.Fits(a, b) && IsSearch(a, b, w, t)
    ensures Maximal(a, b, w, Found(t)) <==> forall s <- Skipped(w, t) :: !HasPair(a, b, s)
  {
    hide IsSearch, Pair, CouldStay;
    if Maximal(a, b, w, Found(t)) {
      forall s | s in Skipped(w, t) ensures !HasPair(a, b, s) {
        if HasPair(a, b, s) {
          var i: nat, j: nat :| Pair(a, b, s, i, j);
          MissedAt(a, b, w, t, i, j);
        }
      }
    }
    if forall s <- Skipped(w, t) :: !HasPair(a, b, s) {
      forall i: nat, j: nat | Pair(a, b, w, i, j) ensures !CouldStay(Found(t), i, j) {
        MissedAt(a, b, w, t, i, j);
      }
    }
  }

  /** A window with a common key is skipped only if it begins, in the first sequence, beyond its
      end in the second one. */
  lemma {:induction false} SkippedBeyondEnd(a: seq<int>, b: seq<int>, w: Window, t: Search, s: Window, i: nat, j: nat)
    requires w.Fits(a, b) && IsSearch(a, b, w, t) && s in Skipped(w, t) && Pair(a, b, s, i, j)
    ensures s.end2 <= s.begin1 < s.end1
    decreases t
  {
    hide Common;
    var m := t.m;
    if s in Skipped(LeftOf(w, m), t.left) {
      SkippedBeyondEnd(a, b, LeftOf(w, m), t.left, s, i, j);
    } else if GoesRight(w, m) {
      SkippedBeyondEnd(a, b, RightOf(w, m), t.right, s, i, j);
    }
  }

  lemma {:induction false} SkippedForward(w: Window, t: Search, s: Window)
    requires w.end1 <= w.end2 && s in Skipped(w, t) && forall m <- Found(t) :: m.i <= m.j
    ensures s.end1 <= s.end2
    decreases t
  {
    var m := t.m;
    assert m in Found(t);
    if s in Skipped(LeftOf(w, m), t.left) {
      assert forall n <- Found(t.left) :: n in Found(t);
      SkippedForward(LeftOf(w, m), t.left, s);
    } else if GoesRight(w, m) {
      assert forall n <- Found(t.right) :: n in Found(t);
      SkippedForward(RightOf(w, m), t.right, s);
    }
  }

  /** Nothing is left out unless a block comes earlier in the second sequence than in the first. */
  lemma ForwardIsMaximal(a: seq<int>, b: seq<int>, w: Window, t: Search)
    requires w.Fits(a, b) && IsSearch(a, b, w, t) && w.end1 <= w.end2
    requires forall m <- Found(t) :: m.i <= m.j
    ensures Maximal(a, b, w, Found(t))
  {
    hide IsSearch;
    forall s | s in Skipped(w, t) ensures !HasPair(a, b, s) {
      if HasPair(a, b, s) {
        var i: nat, j: nat :| Pair(a, b, s, i, j);
        SkippedBeyondEnd(a, b, w, t, s, i, j);
        SkippedForward(w, t, s);
      }
    }
    MaximalIff(a, b, w, t);
  }

  // ---------------------------------------------------------------------------
  // An input for which a row that could stay is moved

  const OLDS: seq<int> := [0, 1, 2, 3, 4, 5, 6, 7, 8]
  const NEWS: seq<int> := [1, 2, 4, 6, 7, 8, 0, 3, 5]

  lemma BlockKeys(w: Window, m: Match, k: nat)
    requires w.Fits(OLDS, NEWS) && IsMatch(OLDS, NEWS, w, m) && k < m.size
    ensures NEWS[m.j + k] == OLDS[m.i + k] == m.i + k
  {
    assert OLDS[m.i..m.i + m.size][k] == NEWS[m.j..m.j + m.size][k];
  }

  lemma TheBlocks()
    ensures IsMatch(OLDS, NEWS, Window(0, 9, 0, 9), Match(6, 3, 3))
    ensures IsMatch(OLDS, NEWS, Window(0, 6, 0, 3), Match(1, 0, 2))
  {
    assert OLDS[6..9] == [6, 7, 8] == NEWS[3..6];
    assert OLDS[1..3] == [1, 2] == NEWS[0..2];
  }

  lemma LongestOfAll(m: Match)
    requires IsLongest(OLDS, NEWS, Window(0, 9, 0, 9), m)
    ensures m == Match(6, 3, 3)
  {
    TheBlocks();
    hide Common;
    BlockKeys(Window(0, 9, 0, 9), m, 0);
    BlockKeys(Window(0, 9, 0, 9), m, 1);
    BlockKeys(Window(0, 9, 0, 9), m, 2);
    if m.size > 3 {
      BlockKeys(Window(0, 9, 0, 9), m, 3);
    }
  }

  lemma LongestOnTheLeft(m: Match)
    requires IsLongest(OLDS, NEWS, Window(0, 6, 0, 3), m)
    ensures m == Match(1, 0, 2)
  {
    TheBlocks();
    hide Common;
    BlockKeys(Window(0, 6, 0, 3), m, 0);
    BlockKeys(Window(0, 6, 0, 3), m, 1);
    if m.size > 2 {
      BlockKeys(Window(0, 6, 0, 3), m, 2);
    }
  }

  /** Whichever blocks are preferred, 1, 2, 6, 7 and 8 stay and 4 does not, although it could. */
  lemma FourIsMissed(t: Search)
    requires IsSearch(OLDS, NEWS, Window(0, 9, 0, 9), t)
    ensures Found(t) == [Match(1, 0, 2), Match(6, 3, 3)] && Window(3, 6, 2, 3) in Skipped(Window(0, 9, 0, 9), t)
    ensures OLDS[4] == NEWS[2] == 4 && CouldStay(Found(t), 4, 2) && !Maximal(OLDS, NEWS, Window(0, 9, 0, 9), Found(t))
  {
    hide Common;
    TheBlocks();
    LongestOfAll(t.m);
    LongestOnTheLeft(t.left.m);
    assert Pair(OLDS, NEWS, Window(0, 9, 0, 9), 4, 2);
  }
}
