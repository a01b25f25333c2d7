/**
 Several notifiers watching lists from different versions.  Each of them has a builder;
 while the log is replayed only the last builder of a list hears of its events, so that
 the builders of a list cover consecutive stretches of its history.  At the end each
 builder absorbs the later ones of its list.
 */
module ChangeInfo {
  import opened ChangeSets
  import opened Merging
  import opened MergeTheorems
  import opened LogOperations
  import opened ListLog
  import opened ChangeBuilder

  datatype ListKey = ListKey(table: nat, row: int, col: int)

  /** A watched list: the contents when its watcher was attached, the elements set while
      this entry was the one that heard of events, and the changes recorded. */
  datatype Entry = Entry(key: ListKey, changes: Changes, start: seq<nat>, touched: set<nat>)

  type World = map<ListKey, ListState>

  /** First entry for `key` at or after `i`, or the number of entries. */
  function NextFrom(entries: seq<Entry>, key: ListKey, i: nat): (n: nat)
    requires i <= |entries|
    ensures i <= n <= |entries|
    ensures n < |entries| ==> entries[n].key == key
    ensures forall x :: i <= x < n ==> entries[x].key != key
    decreases |entries| - i
  {
    if i == |entries| then i
    else if entries[i].key == key then i
    else NextFrom(entries, key, i + 1)
  }

  /** The contents of a list when the next watcher at or after `i` was attached, or now. */
  function EndFrom(entries: seq<Entry>, world: World, key: ListKey, i: nat): seq<nat>
    requires i <= |entries| && key in world
  {
    var n := NextFrom(entries, key, i);
    if n < |entries| then entries[n].start else world[key].ids
  }

  function TouchedIn(entries: seq<Entry>, key: ListKey, lo: nat, hi: nat): set<nat>
    requires lo <= hi <= |entries|
    decreases hi - lo
  {
    if lo == hi then {}
    else TouchedIn(entries, key, lo, hi - 1) + if entries[hi - 1].key == key then entries[hi - 1].touched else {}
  }

  /** The changeset is the change from `before` to `after` in which `touched` were set. */
  ghost predicate Reports(c: Changes, before: seq<nat>, after: seq<nat>, touched: set<nat>) {
    && Tracks(c, before, after)
    && forall k: nat :: k < |after| && after[k] in before ==> (k in c.modifications <==> after[k] in touched)
  }

  /** No element that was there at two points in time was missing in between. */
  ghost predicate NoReturn(s0: seq<nat>, s1: seq<nat>, s2: seq<nat>) {
    forall id :: id in s0 && id in s2 ==> id in s1
  }

  ghost predicate Consistent(entries: seq<Entry>, world: World) {
    && (forall key <- world :: Numbered(world[key]))
    && (forall x :: 0 <= x < |entries| ==> EntryKnown(entries[x], world))
    && (forall x :: 0 <= x < |entries| ==> Covers(entries, world, x))
    && (forall x, y :: 0 <= x < y < |entries| && entries[x].key == entries[y].key ==>
          NoReturn(entries[x].start, entries[y].start, EndFrom(entries, world, entries[x].key, y + 1)))
  }

  ghost predicate EntryKnown(e: Entry, world: World) {
    && e.key in world
    && (forall id <- e.start :: id < world[e.key].next)
    && (forall id <- e.touched :: id < world[e.key].next)
  }

  /** An entry records exactly its own stretch of the list's history. */
  ghost predicate Covers(entries: seq<Entry>, world: World, x: nat)
    requires x < |entries| && entries[x].key in world
  {
    var e, end := entries[x], EndFrom(entries, world, entries[x].key, x + 1);
    Tracks(e.changes, e.start, end) && MarksPositions(e.changes.modifications, end, e.touched)
  }

  /** Merging two reports of consecutive stretches gives the report of both. */
  lemma ReportsMerge(a: Changes, c: Changes, s0: seq<nat>, s1: seq<nat>, s2: seq<nat>, t1: set<nat>, t2: set<nat>)
    requires Reports(a, s0, s1, t1) && Reports(c, s1, s2, t2) && NoReturn(s0, s1, s2)
    ensures Reports(Merged(a, c), s0, s2, t1 + t2)
  {
    var r := Merged(a, c);
    MergeComposes(a, c);
    MergeFits(a, c, |s0|, |s1|, |s2|);
    TracksCompose(a, c, r, s0, s1, s2);
    forall k: nat | k < |s2| && s2[k] in s0
      ensures k in r.modifications <==> s2[k] in t1 + t2
    {
      var j: nat :| j < |s1| && s1[j] == s2[k];
      var i: nat :| i < |s0| && s0[i] == s2[k];
      assert Linked(c, j, k) && Linked(a, i, j);
      MergedModificationsAt(a, c, j, k);
      assert s1[j] in s0 && s2[k] in s1;
    }
  }

  /** For a row that both halves follow, the merge takes the union of the marks. */
  lemma MergedModificationsAt(a: Changes, c: Changes, j: nat, k: nat)
    requires WellFormed(a) && WellFormed(c) && Linked(c, j, k)
    requires exists i :: Linked(a, i, j)
    ensures k in Merged(a, c).modifications <==> k in c.modifications || j in a.modifications
  {
    var i :| Linked(a, i, j);
    forall j' | Linked(c, j', k) ensures j' == j {
      LinkedInjective(c, j, k, j', k);
    }
    if IsEmpty(a) || IsEmpty(c) {
      EmptyModifications(a, c, k);
    } else {
      MergeModifications(a, c, k);
      assert !InsertedThenMoved(a, c, j);
    }
  }

  // ---------------------------------------------------------------------------
  // The three things that happen to the entries

  /** A new watcher starts from the list as it is now. */
  lemma AttachKeepsConsistent(entries: seq<Entry>, world: World, key: ListKey)
    requires Consistent(entries, world) && key in world
    ensures Consistent(entries + [Entry(key, NO_CHANGES, world[key].ids, {})], world)
  {
    var e := Entry(key, NO_CHANGES, world[key].ids, {});
    var more := entries + [e];
    forall k, i: nat | k in world && i <= |entries|
      ensures EndFrom(more, world, k, i) == EndFrom(entries, world, k, i)
    {
      AttachKeepsEnds(entries, e, world, k, i);
    }
    NothingTracks(world[key].ids);
    forall x | 0 <= x < |more| ensures Covers(more, world, x) {
      assert EndFrom(more, world, key, |more|) == world[key].ids;
      if x < |entries| {
        assert Covers(entries, world, x);
      }
    }
  }

  lemma {:induction false} AttachKeepsEnds(entries: seq<Entry>, e: Entry, world: World, key: ListKey, i: nat)
    requires i <= |entries| && key in world && e.key in world && e.start == world[e.key].ids
    ensures EndFrom(entries + [e], world, key, i) == EndFrom(entries, world, key, i)
    decreases |entries| - i
  {
    if i < |entries| && entries[i].key != key {
      AttachKeepsEnds(entries, e, world, key, i + 1);
    }
  }

  /** The entry that hears of events: the last one for the list. */
  ghost predicate IsLastFor(entries: seq<Entry>, key: ListKey, p: int) {
    && -1 <= p < |entries|
    && (p >= 0 ==> entries[p].key == key)
    && forall x :: p < x < |entries| ==> entries[x].key != key
  }

  ghost function Heard(entries: seq<Entry>, s: ListState, e: Event, p: int): seq<Entry>
    requires -1 <= p < |entries| && Applicable(|s.ids|, e)
  {
    if p < 0 then entries else
      var was := entries[p];
      entries[p := was.(changes := Observed(was.changes, e), touched := Apply(s.(touched := was.touched), e).touched)]
  }

  lemma HeardShape(entries: seq<Entry>, s: ListState, e: Event, key: ListKey, p: int)
    requires -1 <= p < |entries| && Applicable(|s.ids|, e)
    ensures var now := Heard(entries, s, e, p);
            && |now| == |entries|
            && (forall x: nat :: x < |entries| ==> now[x].key == entries[x].key)
            && (forall x: nat :: x < |entries| && x != p ==> now[x].changes == entries[x].changes)
            && (p >= 0 ==> now[p].changes == Observed(entries[p].changes, e))
            && (IsLastFor(entries, key, p) ==> IsLastFor(now, key, p))
  {
  }

  /** What the builder's methods ask for is what the entry knows. */
  lemma LastEntryReady(entries: seq<Entry>, world: World, key: ListKey, p: int)
    requires Consistent(entries, world) && key in world && IsLastFor(entries, key, p) && p >= 0
    ensures WellFormed(entries[p].changes)
    ensures |entries[p].changes.insertions| <= |world[key].ids| + |entries[p].changes.deletions|
  {
    assert Covers(entries, world, p);
    LastEnd(entries, world, key, p);
    FitsSize(entries[p].changes, |entries[p].start|, |world[key].ids|);
  }

  lemma {:induction false} HeardEnds(entries: seq<Entry>, world: World, key: ListKey, e: Event, p: int, k: ListKey,
                                     i: nat)
    requires i <= |entries| && key in world && k in world
    requires Applicable(|world[key].ids|, e) && IsLastFor(entries, key, p)
    ensures EndFrom(Heard(entries, world[key], e, p), world[key := Apply(world[key], e)], k, i) ==
              if k == key && i > p then Apply(world[key], e).ids else EndFrom(entries, world, k, i)
    decreases |entries| - i
  {
    if i < |entries| && entries[i].key != k {
      HeardEnds(entries, world, key, e, p, k, i + 1);
    }
  }

  /** An event changes one list, and exactly the last entry for it records the event. */
  lemma EventKeepsConsistent(entries: seq<Entry>, world: World, key: ListKey, e: Event, p: int)
    requires Consistent(entries, world) && key in world
    requires Applicable(|world[key].ids|, e) && IsLastFor(entries, key, p)
    ensures Consistent(Heard(entries, world[key], e, p), world[key := Apply(world[key], e)])
  {
    var now, world' := Heard(entries, world[key], e, p), world[key := Apply(world[key], e)];
    ApplyNumbered(world[key], e);
    forall x: nat | x < |now| ensures EntryKnown(now[x], world') {
      EventKeepsKnown(entries, world, key, e, p, x);
    }
    forall x: nat | x < |now| ensures Covers(now, world', x) {
      EventKeepsCover(entries, world, key, e, p, x);
    }
    forall x: nat, y: nat | x < y < |now| && now[x].key == now[y].key
      ensures NoReturn(now[x].start, now[y].start, EndFrom(now, world', now[x].key, y + 1))
    {
      EventKeepsNoReturn(entries, world, key, e, p, x, y);
    }
  }

  lemma EventKeepsKnown(entries: seq<Entry>, world: World, key: ListKey, e: Event, p: int, x: nat)
    requires Consistent(entries, world) && key in world && x < |entries|
    requires Applicable(|world[key].ids|, e) && IsLastFor(entries, key, p)
    ensures EntryKnown(Heard(entries, world[key], e, p)[x], world[key := Apply(world[key], e)])
  {
    assert EntryKnown(entries[x], world);
    ApplyNumbered(world[key], e);
    if x == p {
      ApplyNumbered(world[key].(touched := entries[p].touched), e);
    }
  }

  lemma LastEntryHears(was: Entry, s: ListState, e: Event)
    requires Numbered(s) && Applicable(|s.ids|, e) && Tracks(was.changes, was.start, s.ids)
    requires MarksPositions(was.changes.modifications, s.ids, was.touched)
    requires (forall id <- was.start :: id < s.next) && forall id <- was.touched :: id < s.next
    ensures Tracks(Observed(was.changes, e), was.start, Apply(s, e).ids)
    ensures MarksPositions(Observed(was.changes, e).modifications, Apply(s, e).ids,
              Apply(s.(touched := was.touched), e).touched)
  {
    hide Tracks, MarksPositions, Observed;
    ObserveTracks(was.changes, was.start, s, e);
    ObserveMarks(was.changes, s.(touched := was.touched), e);
  }

  lemma EventKeepsCover(entries: seq<Entry>, world: World, key: ListKey, e: Event, p: int, x: nat)
    requires Consistent(entries, world) && key in world && x < |entries|
    requires Applicable(|world[key].ids|, e) && IsLastFor(entries, key, p)
    ensures Covers(Heard(entries, world[key], e, p), world[key := Apply(world[key], e)], x)
  {
    hide Tracks, MarksPositions, EndFrom;
    assert Covers(entries, world, x) && EntryKnown(entries[x], world);
    HeardEnds(entries, world, key, e, p, entries[x].key, x + 1);
    if x == p {
      LastEnd(entries, world, key, p);
      LastEntryHears(entries[p], world[key], e);
    }
  }

  lemma EventKeepsNoReturn(entries: seq<Entry>, world: World, key: ListKey, e: Event, p: int, x: nat, y: nat)
    requires Consistent(entries, world) && key in world
    requires Applicable(|world[key].ids|, e) && IsLastFor(entries, key, p)
    requires x < y < |entries| && entries[x].key == entries[y].key
    ensures NoReturn(entries[x].start, entries[y].start,
                     EndFrom(Heard(entries, world[key], e, p), world[key := Apply(world[key], e)], entries[x].key,
                         y + 1))
  {
    hide Apply, Applicable, Covers, Heard, NoReturn, EndFrom;
    var k := entries[x].key;
    assert NoReturn(entries[x].start, entries[y].start, EndFrom(entries, world, k, y + 1));
    HeardEnds(entries, world, key, e, p, k, y + 1);
    if k == key && y >= p {
      LastEnd(entries, world, key, p);
      assert EntryKnown(entries[x], world);
      NoReturnAfterEvent(entries[x].start, entries[y].start, world[key], e);
    }
  }

  lemma NoReturnAfterEvent(s0: seq<nat>, s1: seq<nat>, s: ListState, e: Event)
    requires Numbered(s) && Applicable(|s.ids|, e)
    requires NoReturn(s0, s1, s.ids) && forall id <- s0 :: id < s.next
    ensures NoReturn(s0, s1, Apply(s, e).ids)
  {
    ApplyNumbered(s, e);
  }

  lemma {:induction false} LastEnd(entries: seq<Entry>, world: World, key: ListKey, p: int)
    requires IsLastFor(entries, key, p) && p >= 0 && key in world
    ensures EndFrom(entries, world, key, p + 1) == world[key].ids
  {
    assert NextFrom(entries, key, p + 1) == |entries|;
  }

  /** Dropping stale moves leaves every entry covering its stretch. */
  lemma CleanKeepsConsistent(entries: seq<Entry>, cleaned: seq<Entry>, world: World)
    requires Consistent(entries, world) && |cleaned| == |entries|
    requires forall x :: 0 <= x < |entries| ==> cleaned[x] == entries[x].(changes := Clean(entries[x].changes))
    ensures Consistent(cleaned, world)
  {
    forall k, i: nat | k in world && i <= |entries|
      ensures EndFrom(cleaned, world, k, i) == EndFrom(entries, world, k, i)
    {
      SameEnds(entries, cleaned, world, k, i);
    }
    forall x: nat | x < |cleaned| ensures EntryKnown(cleaned[x], world) && Covers(cleaned, world, x) {
      assert EntryKnown(entries[x], world) && Covers(entries, world, x);
      CleanTracks(entries[x].changes, entries[x].start, EndFrom(entries, world, entries[x].key, x + 1));
      CleanKeepsModifications(entries[x].changes, 0);
    }
  }

  lemma {:induction false} SameEnds(a: seq<Entry>, b: seq<Entry>, world: World, key: ListKey, i: nat)
    requires i <= |a| == |b| && key in world
    requires forall x :: 0 <= x < |a| ==> a[x].key == b[x].key && a[x].start == b[x].start
    ensures EndFrom(a, world, key, i) == EndFrom(b, world, key, i)
    decreases |a| - i
  {
    if i < |a| && a[i].key != key {
      SameEnds(a, b, world, key, i + 1);
    }
  }

  // ---------------------------------------------------------------------------
  // Combining

  /** The value at `x` reports its list's history from its own start up to entry `hi`. */
  ghost predicate CombinedTo(entries: seq<Entry>, values: seq<Changes>, world: World, x: nat, hi: nat)
    requires |values| == |entries| && x < hi <= |entries| && entries[x].key in world
  {
    var e := entries[x];
    Reports(values[x], e.start, EndFrom(entries, world, e.key, hi), TouchedIn(entries, e.key, x, hi))
  }

  /** While entry `i` is being absorbed: values in `[j, i)` have it, those below `j` do not yet,
      and those from `i` on report their own stretch only. */
  ghost predicate Combining(entries: seq<Entry>, values: seq<Changes>, world: World, i: nat, j: nat) {
    && |values| == |entries| && j <= i
    && (forall x :: 0 <= x < |entries| ==> entries[x].key in world)
    && forall x :: 0 <= x < |entries| ==> CombinedUpTo(entries, values, world, i, j, x)
  }

  ghost predicate CombinedUpTo(entries: seq<Entry>, values: seq<Changes>, world: World, i: nat, j: nat, x: nat)
    requires |values| == |entries| && x < |entries| && entries[x].key in world
  {
    && (x < j && i <= |entries| ==> x < i && CombinedTo(entries, values, world, x, i))
    && (j <= x < i && i < |entries| ==> CombinedTo(entries, values, world, x, i + 1))
    && (i <= x ==> CombinedTo(entries, values, world, x, x + 1))
  }

  function Recorded(entries: seq<Entry>): seq<Changes> {
    seq(|entries|, x requires 0 <= x < |entries| => entries[x].changes)
  }

  lemma KeysKnown(entries: seq<Entry>, world: World)
    requires Consistent(entries, world)
    ensures forall x :: 0 <= x < |entries| ==> entries[x].key in world
  {
    hide Covers, NoReturn, Numbered;
    forall x | 0 <= x < |entries| ensures entries[x].key in world {
      assert EntryKnown(entries[x], world);
    }
  }

  lemma OwnStretch(entries: seq<Entry>, values: seq<Changes>, world: World, x: nat)
    requires x < |entries| == |values| && values[x] == entries[x].changes
    requires entries[x].key in world && Covers(entries, world, x)
    ensures CombinedTo(entries, values, world, x, x + 1)
  {
    hide Tracks, EndFrom;
    assert TouchedIn(entries, entries[x].key, x, x) == {};
  }

  lemma CombineStart(entries: seq<Entry>, values: seq<Changes>, world: World)
    requires Consistent(entries, world) && |values| == |entries|
    requires forall x :: 0 <= x < |entries| ==> values[x] == entries[x].changes
    ensures Combining(entries, values, world, 1, 1)
  {
    hide Covers, CombinedTo, NoReturn, Numbered;
    forall x | 0 <= x < |entries|
      ensures entries[x].key in world && CombinedUpTo(entries, values, world, 1, 1, x)
    {
      assert EntryKnown(entries[x], world) && Covers(entries, world, x);
      OwnStretch(entries, values, world, x);
    }
  }

  lemma CombineNext(entries: seq<Entry>, values: seq<Changes>, world: World, i: nat)
    requires Combining(entries, values, world, i, 0) && i < |entries|
    ensures Combining(entries, values, world, i + 1, i + 1)
  {
    var n := i + 1;
    forall x | 0 <= x < |entries| ensures CombinedUpTo(entries, values, world, n, n, x) {
      assert CombinedUpTo(entries, values, world, i, 0, x);
    }
  }

  lemma CombineEnd(entries: seq<Entry>, values: seq<Changes>, world: World, i: nat, x: nat)
    requires Combining(entries, values, world, i, i) && x < |entries| && 1 <= i && |entries| <= i
    requires i == 1 || i == |entries|
    ensures Reports(values[x], entries[x].start, world[entries[x].key].ids,
                    TouchedIn(entries, entries[x].key, x, |entries|))
  {
    assert CombinedUpTo(entries, values, world, i, i, x);
  }

  ghost function Absorbed(entries: seq<Entry>, values: seq<Changes>, i: nat, x: nat): seq<Changes>
    requires |values| == |entries| && x < |entries| && i < |entries|
  {
    if entries[x].key == entries[i].key then values[x := Merged(values[x], values[i])] else values
  }

  lemma CombineAbsorb(entries: seq<Entry>, values: seq<Changes>, world: World, i: nat, j: nat)
    requires Consistent(entries, world) && Combining(entries, values, world, i, j + 1) && i < |entries|
    ensures Combining(entries, Absorbed(entries, values, i, j), world, i, j)
  {
    hide Consistent, Reports;
    var merged := Absorbed(entries, values, i, j);
    assert CombinedUpTo(entries, values, world, i, j + 1, j);
    assert CombinedUpTo(entries, values, world, i, j + 1, i);
    CombineStep(entries, values, world, i, j);
    forall x | 0 <= x < |entries| ensures CombinedUpTo(entries, merged, world, i, j, x) {
      assert CombinedUpTo(entries, values, world, i, j + 1, x);
    }
  }

  /** The entry at `i` extends the one at `x` of the same list; others are not affected by it. */
  lemma CombineStep(entries: seq<Entry>, values: seq<Changes>, world: World, i: nat, x: nat)
    requires Consistent(entries, world) && |values| == |entries| && x < i < |entries|
    requires CombinedTo(entries, values, world, x, i) && CombinedTo(entries, values, world, i, i + 1)
    ensures var value := if entries[x].key == entries[i].key then Merged(values[x], values[i]) else values[x];
            CombinedTo(entries, values[x := value], world, x, i + 1)
  {
    var key := entries[x].key;
    if key == entries[i].key {
      assert NoReturn(entries[x].start, entries[i].start, EndFrom(entries, world, key, i + 1));
      assert EndFrom(entries, world, key, i) == entries[i].start;
      assert TouchedIn(entries, key, i, i + 1) == TouchedIn(entries, key, i, i) + entries[i].touched;
      assert TouchedIn(entries, key, x, i + 1) == TouchedIn(entries, key, x, i) + TouchedIn(entries, key, i, i + 1);
      ReportsMerge(values[x], values[i], entries[x].start, entries[i].start,
                   EndFrom(entries, world, key, i + 1),
                   TouchedIn(entries, key, x, i), TouchedIn(entries, key, i, i + 1));
    }
  }

  // ---------------------------------------------------------------------------
  // In place

  datatype ListChangeInfo = ListChangeInfo(key: ListKey, changes: CollectionChangeBuilder)

  class TransactionChangeInfo {
    var lists: seq<ListChangeInfo>
    var activeList: CollectionChangeBuilder?
    ghost var selected: ListKey
    ghost var entries: seq<Entry>
    ghost var world: World
    ghost var builders: set<object> // all that the builders are made of

    /** The builders share no parts. */
    ghost predicate Registered()
      reads this
    {
      && |entries| == |lists| && this !in builders
      && (forall x :: 0 <= x < |lists| ==> lists[x].key == entries[x].key && lists[x].changes.Parts() <= builders)
      && (forall x, y :: 0 <= x < y < |lists| ==> lists[x].changes.Parts() !! lists[y].changes.Parts())
    }

    /** The builders hold what the entries say. */
    ghost predicate Aligned()
      reads this, builders
    {
      && Registered()
      && forall x :: 0 <= x < |lists| ==> lists[x].changes.Valid() && lists[x].changes.Value() == entries[x].changes
    }

    ghost predicate Valid()
      reads this, builders
    {
      Aligned() && Consistent(entries, world)
    }

    /** Events of the selected list go to its last builder, if anyone watches it. */
    ghost predicate Selected()
      reads this
    {
      && |entries| == |lists|
      && exists p :: IsLastFor(entries, selected, p) && activeList == (if p < 0 then null else lists[p].changes)
    }

    constructor (ghost world: World)
      requires forall key <- world :: Numbered(world[key])
      ensures Valid() && lists == [] && this.world == world && activeList == null
    {
      lists, entries, activeList, builders := [], [], null, {};
      this.world := world;
      selected := ListKey(0, 0, 0);
    }

    /** A watcher registers its builder, which has recorded nothing yet. */
    method AddList(key: ListKey, changes: CollectionChangeBuilder)
      requires Valid() && key in world && changes.Parts() !! builders
      requires changes.Valid() && changes.Value() == NO_CHANGES
      modifies this
      ensures Valid() && world == old(world) && lists == old(lists) + [ListChangeInfo(key, changes)]
      ensures entries == old(entries) + [Entry(key, NO_CHANGES, world[key].ids, {})]
    {
      hide CollectionChangeBuilder.Valid, CollectionChangeBuilder.Value, Consistent;
      AttachKeepsConsistent(entries, world, key);
      lists := lists + [ListChangeInfo(key, changes)];
      entries := entries + [Entry(key, NO_CHANGES, world[key].ids, {})];
      builders := builders + changes.Parts();
      activeList := null;
    }

    /** Search from the back: the last builder for the list is the one to notify. */
    method FindList(key: ListKey) returns (b: CollectionChangeBuilder?, ghost p: int)
      requires Valid()
      ensures IsLastFor(entries, key, p) && b == if p < 0 then null else lists[p].changes
      ensures b == null <==> forall l <- lists :: l.key != key
    {
      hide CollectionChangeBuilder.Valid, CollectionChangeBuilder.Value, CollectionChangeBuilder.Parts,
           Consistent;
      var i := |lists|;
      while i > 0
        invariant 0 <= i <= |lists|
        invariant forall x :: i <= x < |lists| ==> entries[x].key != key
      {
        i := i - 1;
        if lists[i].key == key {
          return lists[i].changes, i;
        }
      }
      return null, -1;
    }

    method SelectList(key: ListKey)
      requires Valid() && key in world
      modifies this
      ensures Valid() && Selected() && selected == key
      ensures world == old(world) && lists == old(lists) && entries == old(entries)
    {
      hide CollectionChangeBuilder.Valid, CollectionChangeBuilder.Value, CollectionChangeBuilder.Parts,
           Consistent;
      ghost var p;
      activeList, p := FindList(key);
      selected := key;
    }

    /** The active builder, if there is one, records an event; the others are left alone. */
    method Record(e: Event, ghost s: ListState, ghost p: int)
      requires Aligned() && -1 <= p < |lists| && activeList == (if p < 0 then null else lists[p].changes)
      requires Applicable(|s.ids|, e)
      requires p >= 0 ==> WellFormed(entries[p].changes)
      requires p >= 0 ==> |entries[p].changes.insertions| <= |s.ids| + |entries[p].changes.deletions|
      modifies builders
      ensures forall x :: 0 <= x < |lists| ==>
                lists[x].changes.Valid() && lists[x].changes.Value() == Heard(entries, s, e, p)[x].changes
    {
      hide CollectionChangeBuilder.Valid, CollectionChangeBuilder.Value, CollectionChangeBuilder.Parts,
           Apply, Observed, Heard, WellFormed;
      HeardShape(entries, s, e, selected, p);
      if activeList != null {
        Observe(activeList, e);
      }
    }

    /** An event of the selected list. */
    method OnEvent(e: Event)
      requires Valid() && Selected() && selected in world && Applicable(|world[selected].ids|, e)
      modifies this, builders
      ensures Valid() && Selected() && selected == old(selected) && lists == old(lists)
      ensures world == old(world)[selected := Apply(old(world)[selected], e)]
      ensures exists p :: IsLastFor(old(entries), selected, p)
                && entries == Heard(old(entries), old(world)[selected], e, p)
    {
      hide CollectionChangeBuilder.Valid, CollectionChangeBuilder.Value, CollectionChangeBuilder.Parts,
           Consistent, Apply, Applicable, Observed, Heard, WellFormed;
      ghost var p :| IsLastFor(entries, selected, p) && activeList == if p < 0 then null else lists[p].changes;
      ghost var s := world[selected];
      EventKeepsConsistent(entries, world, selected, e, p);
      HeardShape(entries, s, e, selected, p);
      if p >= 0 {
        LastEntryReady(entries, world, selected, p);
      }
      Record(e, s, p);
      entries := Heard(entries, s, e, p);
      world := world[selected := Apply(s, e)];
      assert IsLastFor(entries, selected, p) && activeList == if p < 0 then null else lists[p].changes;
    }

    /** What the observer calls on the active builder. */
    static method Observe(b: CollectionChangeBuilder, e: Event)
      requires b.Valid() && WellFormed(b.Value())
      requires e.ListClear? ==> |b.Value().insertions| <= e.oldSize + |b.Value().deletions|
      requires e.ListMove? ==> e.from != e.to
      requires e.ListSwap? ==> e.index1 != e.index2
      modifies b.Parts()
      ensures b.Valid() && b.Value() == Observed(old(b.Value()), e)
    {
      hide CollectionChangeBuilder.Valid, CollectionChangeBuilder.Value, CollectionChangeBuilder.Parts,
           Inserted, Erased, Moved, Cleared, SwapObserved;
      match e
      case ListInsert(index) => b.Insert(index, 1, true);
      case ListErase(index) => b.Erase(index);
      case ListSet(index) => b.Modify(index);
      case ListMove(from, to) => b.MoveRow(from, to);
      case ListClear(oldSize) => b.Clear(oldSize);
      case ListSwap(index1, index2) => ObserveSwapOn(b, index1, index2);
    }

    /** A swap is one move, or two when the rows are not neighbours. */
    static method ObserveSwapOn(b: CollectionChangeBuilder, index1: nat, index2: nat)
      requires b.Valid() && WellFormed(b.Value()) && index1 != index2
      modifies b.Parts()
      ensures b.Valid() && b.Value() == Observed(old(b.Value()), ListSwap(index1, index2))
    {
      hide CollectionChangeBuilder.Valid, CollectionChangeBuilder.Value, CollectionChangeBuilder.Parts,
           Moved, ComposedParts;
      var lo, hi := index1, index2;
      if index1 > index2 {
        lo, hi := hi, lo;
      }
      ghost var c := b.Value();
      MoveComposes(c, lo, hi);
      ComposeWellFormed(c, MoveChange(lo, hi), Moved(c, lo, hi));
      b.MoveRow(lo, hi);
      if lo + 1 != hi {
        b.MoveRow(hi - 1, lo);
      }
    }

    lemma OneEntryEach()
      requires Aligned()
      ensures |entries| == |lists| && this !in builders
      ensures forall x :: 0 <= x < |lists| ==> lists[x].changes.Parts() <= builders
    {
    }

    method CleanOne(k: nat)
      requires Aligned() && k < |lists|
      modifies `entries, lists[k].changes.Parts()
      ensures Aligned() && entries == old(entries)[k := old(entries)[k].(changes := Clean(old(entries)[k].changes))]
    {
      hide CollectionChangeBuilder.Valid, CollectionChangeBuilder.Value, CollectionChangeBuilder.Parts,
           Clean;
      lists[k].changes.CleanUpStaleMoves();
      entries := entries[k := entries[k].(changes := Clean(entries[k].changes))];
    }

    /** The end of a transaction log. */
    method ParseComplete()
      requires Valid()
      modifies this, builders
      ensures Valid() && lists == old(lists) && world == old(world)
      ensures forall x :: 0 <= x < |entries| ==>
                entries[x] == old(entries)[x].(changes := Clean(old(entries)[x].changes))
    {
      hide CollectionChangeBuilder.Valid, CollectionChangeBuilder.Value, CollectionChangeBuilder.Parts,
           Consistent, Clean, Aligned;
      OneEntryEach();
      for k := 0 to |lists|
        invariant lists == old(lists) && world == old(world) && |entries| == |lists| && Aligned()
        invariant builders == old(builders) && this !in builders
        invariant forall x :: 0 <= x < |lists| ==> lists[x].changes.Parts() <= builders
        invariant forall x :: k <= x < |lists| ==> entries[x] == old(entries)[x]
        invariant forall x :: 0 <= x < k ==>
                    entries[x] == old(entries)[x].(changes := Clean(old(entries)[x].changes))
      {
        CleanOne(k);
      }
      CleanKeepsConsistent(old(entries), entries, world);
    }

    /** The builders hold the given values. */
    ghost predicate Holds(values: seq<Changes>)
      reads this, builders
    {
      && Registered() && |values| == |lists|
      && forall x :: 0 <= x < |lists| ==>
           lists[x].changes.Valid() && lists[x].changes.Value() == values[x]
    }

    /** If `x` and `i` watch the same list, a copy of the later builder is merged into the earlier. */
    method AbsorbInto(i: nat, x: nat, ghost values: seq<Changes>)
      requires Registered() && i < |lists| && x < |lists| && x != i && Holds(values)
      modifies builders
      ensures Holds(Absorbed(entries, values, i, x))
    {
      hide CollectionChangeBuilder.Valid, CollectionChangeBuilder.Value, CollectionChangeBuilder.Parts,
           Merged, WellFormed, Composed;
      if lists[i].key == lists[x].key {
        var copy := new CollectionChangeBuilder.Copy(lists[i].changes);
        lists[x].changes.Merge(copy, false);
      }
    }

    /** Entry `i` is absorbed by every earlier entry of its list. */
    method AbsorbIntoEarlier(i: nat, ghost values: seq<Changes>) returns (ghost merged: seq<Changes>)
      requires Registered() && Consistent(entries, world) && i < |lists|
      requires Holds(values) && Combining(entries, values, world, i, i)
      modifies builders
      ensures Holds(merged) && Combining(entries, merged, world, i, 0)
    {
      hide CollectionChangeBuilder.Valid, CollectionChangeBuilder.Value, CollectionChangeBuilder.Parts,
           Combining, Consistent, Absorbed;
      merged := values;
      var j := i;
      while j > 0
        invariant 0 <= j <= i
        invariant Holds(merged) && Combining(entries, merged, world, i, j)
      {
        j := j - 1;
        CombineAbsorb(entries, merged, world, i, j);
        AbsorbInto(i, j, merged);
        merged := Absorbed(entries, merged, i, j);
      }
    }

    /** Every builder absorbs the later builders of its list: afterwards each of them reports
        the whole change of its list from the moment it was attached until now. */
    method CombineLists()
      requires Valid()
      modifies builders
      ensures forall x :: 0 <= x < |lists| ==>
                Reports(lists[x].changes.Value(), entries[x].start, world[entries[x].key].ids,
                        TouchedIn(entries, entries[x].key, x, |entries|))
    {
      hide CollectionChangeBuilder.Valid, CollectionChangeBuilder.Value, CollectionChangeBuilder.Parts,
           Combining, Consistent, Reports;
      ghost var values := Recorded(entries);
      KeysKnown(entries, world);
      CombineStart(entries, values, world);
      var i := 1;
      while i < |lists|
        invariant 1 <= i && (i == 1 || i <= |lists|)
        invariant Holds(values) && Combining(entries, values, world, i, i)
      {
        values := AbsorbIntoEarlier(i, values);
        CombineNext(entries, values, world, i);
        i := i + 1;
      }
      forall x | 0 <= x < |lists|
        ensures Reports(values[x], entries[x].start, world[entries[x].key].ids,
                        TouchedIn(entries, entries[x].key, x, |entries|))
      {
        CombineEnd(entries, values, world, i, x);
      }
    }
  }
}
