/**
 Runs of list events, and the changeset that observing them builds.

 The list is a sequence of element identities: inserting an element brings in a
 number that was never used before, and setting one keeps its identity but marks it.
 */
module ListLog {
  import opened Sequences
  import opened IndexAlgebra
  import opened ChangeSets
  import opened LogOperations
  import opened Merging

  datatype Event =
    | ListInsert(index: nat)
    | ListErase(index: nat)
    | ListSet(index: nat)
    | ListMove(from: nat, to: nat)
    | ListSwap(index1: nat, index2: nat)
    | ListClear(oldSize: nat)

  datatype ListState = ListState(ids: seq<nat>, next: nat, touched: set<nat>)

  ghost predicate Distinct(ids: seq<nat>) {
    forall x, y :: 0 <= x < y < |ids| ==> ids[x] != ids[y]
  }

  ghost predicate Numbered(s: ListState) {
    Distinct(s.ids) && forall id <- s.ids :: id < s.next
  }

  /** Events that a list of this size can produce. */
  predicate Applicable(size: nat, e: Event) {
    match e
    case ListInsert(index) => index <= size
    case ListErase(index) => index < size
    case ListSet(index) => index < size
    case ListMove(from, to) => from < size && to < size && from != to
    case ListSwap(index1, index2) => index1 < size && index2 < size && index1 != index2
    case ListClear(oldSize) => oldSize == size
  }

  function Put(ids: seq<nat>, index: nat, id: nat): seq<nat>
    requires index <= |ids|
  {
    ids[..index] + [id] + ids[index..]
  }

  function Relocated(ids: seq<nat>, from: nat, to: nat): seq<nat>
    requires from < |ids| && to < |ids|
  {
    Put(RemoveAt<nat>(ids, from), to, ids[from])
  }

  function Swapped(ids: seq<nat>, index1: nat, index2: nat): seq<nat>
    requires index1 < |ids| && index2 < |ids|
  {
    ids[index1 := ids[index2]][index2 := ids[index1]]
  }

  /** What an event does to the list. */
  function Apply(s: ListState, e: Event): ListState
    requires Applicable(|s.ids|, e)
  {
    match e
    case ListInsert(index) => s.(ids := Put(s.ids, index, s.next), next := s.next + 1)
    case ListErase(index) => s.(ids := RemoveAt<nat>(s.ids, index))
    case ListSet(index) => s.(touched := s.touched + {s.ids[index]})
    case ListMove(from, to) => s.(ids := Relocated(s.ids, from, to))
    case ListSwap(index1, index2) => s.(ids := Swapped(s.ids, index1, index2))
    case ListClear(_) => s.(ids := [])
  }

  /** What the observer does with an event. */
  function Observed(c: Changes, e: Event): Changes {
    match e
    case ListInsert(index) => Inserted(c, index, 1, true)
    case ListErase(index) => Erased(c, index)
    case ListSet(index) => Modified(c, index)
    case ListMove(from, to) => Moved(c, from, to)
    case ListClear(oldSize) => Cleared(c, oldSize)
    case ListSwap(index1, index2) =>
      if index1 > index2 then SwapObserved(c, index2, index1) else SwapObserved(c, index1, index2)
  }

  function SwapObserved(c: Changes, lo: nat, hi: nat): Changes {
    var first := Moved(c, lo, hi);
    if lo + 1 < hi then Moved(first, hi - 1, lo) else first
  }

  ghost predicate ApplicableRun(s: ListState, events: seq<Event>)
    decreases |events|
  {
    events != [] ==> Applicable(|s.ids|, events[0]) && ApplicableRun(Apply(s, events[0]), events[1..])
  }

  function ApplyAll(s: ListState, events: seq<Event>): ListState
    requires ApplicableRun(s, events)
    decreases |events|
  {
    if events == [] then s else ApplyAll(Apply(s, events[0]), events[1..])
  }

  function ObservedAll(c: Changes, events: seq<Event>): Changes
    decreases |events|
  {
    if events == [] then c else ObservedAll(Observed(c, events[0]), events[1..])
  }

  // ---------------------------------------------------------------------------
  // Tracking identities

  /** The changeset links two positions exactly when they hold the same element. */
  ghost predicate Tracks(c: Changes, before: seq<nat>, after: seq<nat>) {
    && WellFormed(c)
    && Fits(c, |before|, |after|)
    && forall i: nat, j: nat :: i < |before| ==> (Linked(c, i, j) <==> j < |after| && before[i] == after[j])
  }

  /** Tracking composes, provided no element comes back after it was gone. */
  lemma TracksCompose(a: Changes, c: Changes, r: Changes, s0: seq<nat>, s1: seq<nat>, s2: seq<nat>)
    requires Tracks(a, s0, s1) && Tracks(c, s1, s2)
    requires Composed(a, c, r) && WellFormed(r) && Fits(r, |s0|, |s2|)
    requires forall id :: id in s0 && id in s2 ==> id in s1
    ensures Tracks(r, s0, s2)
  {
    forall i: nat, k: nat | i < |s0|
      ensures Linked(r, i, k) <==> k < |s2| && s0[i] == s2[k]
    {
      if Linked(r, i, k) {
        var j :| Linked(a, i, j) && Linked(c, j, k);
      }
      if k < |s2| && s0[i] == s2[k] {
        assert s0[i] in s0 && s0[i] in s2;
        var j: nat :| j < |s1| && s1[j] == s0[i];
        assert Linked(a, i, j) && Linked(c, j, k);
      }
    }
  }

  /** One elementary change after a tracking changeset. */
  lemma StepTracks(a: Changes, e: Changes, r: Changes, s0: seq<nat>, s1: seq<nat>, s2: seq<nat>)
    requires Tracks(a, s0, s1) && Tracks(e, s1, s2) && ComposedParts(a, e, r)
    requires forall id :: id in s0 && id in s2 ==> id in s1
    ensures Tracks(r, s0, s2)
  {
    ComposeLinks(a, e, r);
    ComposeWellFormed(a, e, r);
    ComposeFits(a, e, r, |s0|, |s1|, |s2|);
    TracksCompose(a, e, r, s0, s1, s2);
  }

  lemma InsertTracks(ids: seq<nat>, index: nat, id: nat)
    requires Distinct(ids) && index <= |ids| && id !in ids
    ensures Tracks(InsertChange(index, 1), ids, Put(ids, index, id))
  {
    InsertLinks(index, 1, |ids|, |ids| + 1);
    forall i: nat, j: nat | i < |ids|
      ensures Linked(InsertChange(index, 1), i, j)
         <==> j < |Put(ids, index, id)| && ids[i] == Put(ids, index, id)[j]
    {
      InsertTracksAt(ids, index, id, i, j);
    }
  }

  lemma InsertTracksAt(ids: seq<nat>, index: nat, id: nat, i: nat, j: nat)
    requires Distinct(ids) && index <= |ids| && id !in ids && i < |ids|
    ensures Linked(InsertChange(index, 1), i, j) <==> j < |Put(ids, index, id)| && ids[i] == Put(ids, index, id)[j]
  {
    hide Linked;
    var after := Put(ids, index, id);
    InsertLinks(index, 1, i, j);
    assert after[OpenGap(i, index, 1)] == ids[i];
    if j < |after| && j != index {
      assert after[j] == ids[if j < index then j else j - 1];
    }
  }

  lemma EraseTracks(ids: seq<nat>, index: nat)
    requires Distinct(ids) && index < |ids|
    ensures Tracks(EraseChange(index), ids, RemoveAt<nat>(ids, index))
  {
    var e, after := EraseChange(index), RemoveAt<nat>(ids, index);
    EraseLinks(index, |ids|, |ids| - 1);
    forall i: nat, j: nat | i < |ids|
      ensures Linked(e, i, j) <==> j < |after| && ids[i] == after[j]
    {
      EraseLinks(index, i, j);
      if j < |after| {
        assert after[j] == ids[if j < index then j else j + 1];
      }
    }
  }

  lemma RelocatedAt(ids: seq<nat>, from: nat, to: nat, i: nat)
    requires from < |ids| && to < |ids| && i < |ids|
    ensures |Relocated(ids, from, to)| == |ids| && Displaced(i, from, to) < |ids|
    ensures Relocated(ids, from, to)[Displaced(i, from, to)] == ids[i]
  {
  }

  lemma MoveTracks(ids: seq<nat>, from: nat, to: nat)
    requires Distinct(ids) && from < |ids| && to < |ids| && from != to
    ensures Tracks(MoveChange(from, to), ids, Relocated(ids, from, to))
  {
    var e, after := MoveChange(from, to), Relocated(ids, from, to);
    MoveLinks(from, to, |ids|, |ids|);
    forall i: nat, j: nat | i < |ids|
      ensures Linked(e, i, j) <==> j < |after| && ids[i] == after[j]
    {
      MoveLinks(from, to, i, j);
      RelocatedAt(ids, from, to, i);
      if j < |after| {
        // j is where the row at Displaced(j, to, from) goes
        RelocatedAt(ids, from, to, Displaced(j, to, from));
      }
    }
  }

  lemma ClearTracks(ids: seq<nat>)
    ensures Tracks(ClearChange(|ids|), ids, [])
  {
    CountInterval(0, |ids|, |ids|);
    EmptyIsIdentity(0);
  }

  /** Moving the lower row up and the upper row down is a swap. */
  lemma SwapIsTwoMoves(ids: seq<nat>, lo: nat, hi: nat)
    requires lo < hi < |ids|
    ensures Swapped(ids, lo, hi) == Swapped(ids, hi, lo)
    ensures var first := Relocated(ids, lo, hi);
            (if lo + 1 < hi then Relocated(first, hi - 1, lo) else first) == Swapped(ids, lo, hi)
  {
    hide Relocated;
    var first, swapped := Relocated(ids, lo, hi), Swapped(ids, lo, hi);
    RelocatedAt(ids, lo, hi, lo);
    var second := if lo + 1 < hi then Relocated(first, hi - 1, lo) else first;
    RelocatedAt(first, hi - 1, lo, lo);
    forall q: nat | q < |ids| ensures second[q] == swapped[q] {
      var p := if q == lo then hi else if q == hi then lo else q;
      RelocatedAt(ids, lo, hi, p);
      RelocatedAt(first, hi - 1, lo, Displaced(p, lo, hi));
    }
  }

  lemma RelocatedMembers(ids: seq<nat>, from: nat, to: nat)
    requires from < |ids| && to < |ids|
    ensures forall id :: id in Relocated(ids, from, to) <==> id in ids
    ensures Distinct(ids) ==> Distinct(Relocated(ids, from, to))
  {
    var after := Relocated(ids, from, to);
    forall i: nat | i < |ids| ensures ids[i] in after {
      RelocatedAt(ids, from, to, i);
    }
    if Distinct(ids) {
      forall x, y | 0 <= x < y < |after|
        ensures after[x] != after[y]
      {
        RelocatedAt(ids, from, to, Displaced(x, to, from));
        RelocatedAt(ids, from, to, Displaced(y, to, from));
      }
    }
  }

  // ---------------------------------------------------------------------------
  // One event

  lemma PutMembers(ids: seq<nat>, index: nat, id: nat)
    requires index <= |ids| && id !in ids
    ensures forall x :: x in Put(ids, index, id) <==> x in ids || x == id
    ensures Distinct(ids) ==> Distinct(Put(ids, index, id))
  {
    assert ids == ids[..index] + ids[index..];
  }

  lemma RemoveAtMembers(ids: seq<nat>, index: nat)
    requires index < |ids|
    ensures forall x :: x in RemoveAt<nat>(ids, index) ==> x in ids
    ensures Distinct(ids) ==> Distinct(RemoveAt<nat>(ids, index))
  {
  }

  lemma SwappedMembers(ids: seq<nat>, a: nat, b: nat)
    requires a < |ids| && b < |ids| && a != b
    ensures var after := Swapped(ids, a, b);
            (forall x <- after :: x in ids) && (Distinct(ids) ==> Distinct(after))
  {
    var after := Swapped(ids, a, b);
    forall x: nat | x < |after| ensures after[x] in ids {
      assert after[x] == ids[if x == a then b else if x == b then a else x];
    }
  }

  lemma ApplyNumbered(s: ListState, e: Event)
    requires Numbered(s) && Applicable(|s.ids|, e)
    ensures Numbered(Apply(s, e)) && s.next <= Apply(s, e).next
    ensures forall id <- Apply(s, e).ids :: id in s.ids || id == s.next
    ensures (forall id <- s.touched :: id < s.next) ==> forall id <- Apply(s, e).touched :: id < s.next
  {
    match e
    case ListInsert(index) => PutMembers(s.ids, index, s.next);
    case ListErase(index) => RemoveAtMembers(s.ids, index);
    case ListMove(from, to) => RelocatedMembers(s.ids, from, to);
    case ListSwap(index1, index2) => SwappedMembers(s.ids, index1, index2);
    case ListSet(index) => assert s.ids[index] in s.ids;
    case ListClear(_) =>
  }

  /** Observing one event keeps the changeset tracking the list, from whatever start. */
  lemma ObserveTracks(c: Changes, before: seq<nat>, s: ListState, e: Event)
    requires Numbered(s) && Applicable(|s.ids|, e) && Tracks(c, before, s.ids)
    requires forall id <- before :: id < s.next
    ensures Tracks(Observed(c, e), before, Apply(s, e).ids)
  {
    match e
    case ListInsert(index) => ObserveInsert(c, before, s.ids, index, s.next);
    case ListErase(index) => ObserveErase(c, before, s.ids, index);
    case ListSet(index) => ObserveSet(c, before, s.ids, index);
    case ListMove(from, to) => ObserveMove(c, before, s.ids, from, to);
    case ListSwap(index1, index2) =>
      var lo, hi := if index1 > index2 then index2 else index1, if index1 > index2 then index1 else index2;
      SwapIsTwoMoves(s.ids, lo, hi);
      ObserveSwap(c, before, s.ids, lo, hi);
    case ListClear(_) => ObserveClear(c, before, s.ids);
  }

  lemma ObserveInsert(c: Changes, before: seq<nat>, ids: seq<nat>, index: nat, id: nat)
    requires Distinct(ids) && index <= |ids| && id !in ids && id !in before && Tracks(c, before, ids)
    ensures Tracks(Inserted(c, index, 1, true), before, Put(ids, index, id))
  {
    PutMembers(ids, index, id);
    InsertTracks(ids, index, id);
    InsertComposes(c, index, 1);
    StepTracks(c, InsertChange(index, 1), Inserted(c, index, 1, true), before, ids, Put(ids, index, id));
  }

  lemma ObserveErase(c: Changes, before: seq<nat>, ids: seq<nat>, index: nat)
    requires Distinct(ids) && index < |ids| && Tracks(c, before, ids)
    ensures Tracks(Erased(c, index), before, RemoveAt<nat>(ids, index))
  {
    RemoveAtMembers(ids, index);
    EraseTracks(ids, index);
    EraseComposes(c, index);
    StepTracks(c, EraseChange(index), Erased(c, index), before, ids, RemoveAt<nat>(ids, index));
  }

  lemma ObserveSet(c: Changes, before: seq<nat>, ids: seq<nat>, index: nat)
    requires Tracks(c, before, ids)
    ensures Tracks(Modified(c, index), before, ids)
  {
    assert forall i: nat, j: nat :: Linked(c, i, j) <==> Linked(Modified(c, index), i, j);
  }

  lemma ObserveClear(c: Changes, before: seq<nat>, ids: seq<nat>)
    requires Tracks(c, before, ids)
    ensures Tracks(Cleared(c, |ids|), before, [])
  {
    ClearTracks(ids);
    ClearComposes(c, |before|, |ids|);
    StepTracks(c, ClearChange(|ids|), Cleared(c, |ids|), before, ids, []);
  }

  lemma ObserveSwap(c: Changes, before: seq<nat>, ids: seq<nat>, lo: nat, hi: nat)
    requires Distinct(ids) && lo < hi < |ids| && Tracks(c, before, ids)
    ensures Tracks(SwapObserved(c, lo, hi), before, Swapped(ids, lo, hi))
  {
    hide Tracks, Distinct, Moved, Relocated, Swapped;
    var first := Relocated(ids, lo, hi);
    RelocatedAt(ids, lo, hi, lo);
    ObserveMove(c, before, ids, lo, hi);
    if lo + 1 < hi {
      assert Distinct(first) by { RelocatedMembers(ids, lo, hi); }
      ObserveMove(Moved(c, lo, hi), before, first, hi - 1, lo);
      assert Relocated(first, hi - 1, lo) == Swapped(ids, lo, hi) by { SwapIsTwoMoves(ids, lo, hi); }
    } else {
      assert first == Swapped(ids, lo, hi) by { SwapIsTwoMoves(ids, lo, hi); }
    }
  }

  lemma ObserveMove(c: Changes, before: seq<nat>, ids: seq<nat>, from: nat, to: nat)
    requires Distinct(ids) && from < |ids| && to < |ids| && from != to && Tracks(c, before, ids)
    ensures Tracks(Moved(c, from, to), before, Relocated(ids, from, to))
  {
    MoveTracks(ids, from, to);
    MoveComposes(c, from, to);
    RelocatedMembers(ids, from, to);
    StepTracks(c, MoveChange(from, to), Moved(c, from, to), before, ids, Relocated(ids, from, to));
  }

  // ---------------------------------------------------------------------------
  // Marks

  ghost predicate MarksPositions(marks: set<nat>, ids: seq<nat>, touched: set<nat>) {
    forall p: nat :: p in marks <==> p < |ids| && ids[p] in touched
  }

  lemma MoveMarks(c: Changes, ids: seq<nat>, touched: set<nat>, from: nat, to: nat)
    requires MarksPositions(c.modifications, ids, touched) && from < |ids| && to < |ids|
    ensures MarksPositions(Moved(c, from, to).modifications, Relocated(ids, from, to), touched)
  {
    var m, after := Moved(c, from, to).modifications, Relocated(ids, from, to);
    forall q: nat
      ensures q in m <==> q < |after| && after[q] in touched
    {
      var p := Displaced(q, to, from);
      MovedMark(c, from, to, p);
      assert Displaced(p, from, to) == q;
      if p < |ids| {
        RelocatedAt(ids, from, to, p);
      }
    }
  }

  lemma MovedMark(c: Changes, from: nat, to: nat, p: nat)
    ensures Displaced(p, from, to) in Moved(c, from, to).modifications <==> p in c.modifications
  {
    var erased := EraseAt(c.modifications, from);
    if p != from {
      assert CloseGap(p, from) in erased <==> p in c.modifications;
    }
  }

  lemma InsertMarks(marks: set<nat>, ids: seq<nat>, touched: set<nat>, index: nat, id: nat)
    requires MarksPositions(marks, ids, touched) && index <= |ids| && id !in touched
    ensures MarksPositions(ShiftForInsertAt(marks, index, 1), Put(ids, index, id), touched)
  {
    var m, after := ShiftForInsertAt(marks, index, 1), Put(ids, index, id);
    forall q: nat ensures q in m <==> q < |after| && after[q] in touched {
      if q != index {
        var p := if q < index then q else q - 1;
        assert q in m <==> p in marks;
      }
    }
  }

  lemma EraseMarks(marks: set<nat>, ids: seq<nat>, touched: set<nat>, index: nat)
    requires MarksPositions(marks, ids, touched) && index < |ids|
    ensures MarksPositions(EraseAt(marks, index), RemoveAt<nat>(ids, index), touched)
  {
    var m, after := EraseAt(marks, index), RemoveAt<nat>(ids, index);
    forall q: nat ensures q in m <==> q < |after| && after[q] in touched {
      var p := if q < index then q else q + 1;
      assert q in m <==> p in marks;
    }
  }

  lemma SwapMarks(c: Changes, ids: seq<nat>, touched: set<nat>, lo: nat, hi: nat)
    requires lo < hi < |ids| && MarksPositions(c.modifications, ids, touched)
    ensures MarksPositions(SwapObserved(c, lo, hi).modifications, Swapped(ids, lo, hi), touched)
  {
    hide MarksPositions, Moved, Swapped;
    SwapIsTwoMoves(ids, lo, hi);
    MoveMarks(c, ids, touched, lo, hi);
    if lo + 1 < hi {
      MoveMarks(Moved(c, lo, hi), Relocated(ids, lo, hi), touched, hi - 1, lo);
    }
  }

  lemma ObserveMarks(c: Changes, s: ListState, e: Event)
    requires Numbered(s) && Applicable(|s.ids|, e)
    requires MarksPositions(c.modifications, s.ids, s.touched)
    requires forall id <- s.touched :: id < s.next
    ensures MarksPositions(Observed(c, e).modifications, Apply(s, e).ids, Apply(s, e).touched)
  {
    match e
    case ListInsert(index) => InsertMarks(c.modifications, s.ids, s.touched, index, s.next);
    case ListErase(index) => EraseMarks(c.modifications, s.ids, s.touched, index);
    case ListSet(index) =>
    case ListMove(from, to) => MoveMarks(c, s.ids, s.touched, from, to);
    case ListSwap(index1, index2) =>
      var lo, hi := if index1 > index2 then index2 else index1, if index1 > index2 then index1 else index2;
      SwapIsTwoMoves(s.ids, lo, hi);
      SwapMarks(c, s.ids, s.touched, lo, hi);
    case ListClear(_) =>
  }

  // ---------------------------------------------------------------------------
  // Whole runs

  lemma {:induction false} RunTracks(c: Changes, before: seq<nat>, s: ListState, events: seq<Event>)
    requires Numbered(s) && ApplicableRun(s, events) && Tracks(c, before, s.ids)
    requires forall id <- before :: id < s.next
    requires forall id <- s.touched :: id < s.next
    requires MarksPositions(c.modifications, s.ids, s.touched)
    ensures Tracks(ObservedAll(c, events), before, ApplyAll(s, events).ids)
    ensures MarksPositions(ObservedAll(c, events).modifications, ApplyAll(s, events).ids, ApplyAll(s, events).touched)
    decreases |events|
  {
    if events != [] {
      ApplyNumbered(s, events[0]);
      ObserveTracks(c, before, s, events[0]);
      ObserveMarks(c, s, events[0]);
      RunTracks(Observed(c, events[0]), before, Apply(s, events[0]), events[1..]);
    }
  }

  lemma NothingTracks(ids: seq<nat>)
    requires Distinct(ids)
    ensures Tracks(NO_CHANGES, ids, ids)
  {
    forall i: nat {
      EmptyIsIdentity(i);
    }
  }

  /** The changeset at the end of a transaction: every event observed, stale moves dropped. */
  function Report(events: seq<Event>): Changes {
    Clean(ObservedAll(NO_CHANGES, events))
  }

  lemma CleanTracks(c: Changes, before: seq<nat>, after: seq<nat>)
    requires Tracks(c, before, after)
    ensures Tracks(Clean(c), before, after)
  {
    CleanMeaning(c, 0);
    assert forall i: nat, j: nat :: Linked(c, i, j) <==> Linked(Clean(c), i, j);
  }

  /** For every initial list and every run of events, what the observer reports is the
      change: the surviving and moved rows are exactly the elements that are in both lists,
      and the modified rows are exactly the elements that were set during the run. */
  lemma ReportIsTheChange(s: ListState, events: seq<Event>)
    requires Numbered(s) && s.touched == {} && ApplicableRun(s, events)
    ensures Tracks(Report(events), s.ids, ApplyAll(s, events).ids)
    ensures MarksPositions(Report(events).modifications, ApplyAll(s, events).ids, ApplyAll(s, events).touched)
  {
    var c := ObservedAll(NO_CHANGES, events);
    NothingTracks(s.ids);
    RunTracks(NO_CHANGES, s.ids, s, events);
    CleanTracks(c, s.ids, ApplyAll(s, events).ids);
    CleanMeaning(c, 0);
  }

  /** In positions: the old list without the deletions is the new list without the insertions,
      the sizes agree, every move joins one element, and none of them is a no-op. */
  lemma ReportInPositions(s: ListState, events: seq<Event>)
    requires Numbered(s) && s.touched == {} && ApplicableRun(s, events)
    ensures var r, after := Report(events), ApplyAll(s, events).ids;
            && Without(s.ids, r.deletions) == Without(after, r.insertions)
            && |s.ids| + |r.insertions| == |after| + |r.deletions|
            && (forall m <- r.moves :: m.from < |s.ids| && m.to < |after| && s.ids[m.from] == after[m.to])
            && (forall m <- r.moves :: !Stale(r, m))
  {
    var r, after := Report(events), ApplyAll(s, events).ids;
    ReportIsTheChange(s, events);
    DescribesWithout(r, s.ids, after);
    FitsSize(r, |s.ids|, |after|);
    forall m | m in r.moves
      ensures m.from < |s.ids| && m.to < |after| && s.ids[m.from] == after[m.to]
    {
      assert Linked(r, m.from, m.to);
    }
    NothingTracks(s.ids);
    RunTracks(NO_CHANGES, s.ids, s, events);
    CleanLeavesNoStale(ObservedAll(NO_CHANGES, events), 0);
  }
}
