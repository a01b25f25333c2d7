/**
 The life cycle of a sync session and its ledger of completion callbacks.

 A step is what happens while the state lock is held.  Callbacks taken out of the session are
 invoked later, without the lock, and a client resync holds callbacks aside across a stretch
 in which the lock is free.  Callbacks are numbered in the order in which they are given.
 */
module Syncing {
  import opened Sequences

  datatype State = Active | Dying | Inactive

  datatype StopPolicy = Immediately | LiveIndefinitely | AfterChangesUploaded

  /** A pending callback: the request it is filed under, and which callback it is. */
  datatype Entry = Entry(id: nat, isDownload: bool, callback: nat)

  datatype Session = Session(
    state: State,
    hasSession: bool,
    deathCount: nat,
    requests: nat,              // the request counter
    pending: seq<Entry>,        // in order of request
    registered: set<nat>,       // requests that the underlying session will report
    inFlight: seq<nat>,         // taken out, about to be invoked
    invoked: seq<nat>,
    aside: seq<seq<Entry>>,     // held by resyncs in progress
    lost: seq<nat>,
    given: nat)                 // how many callbacks were handed in

  const INITIAL := Session(Inactive, false, 0, 0, [], {}, [], [], [], [], 0)

  datatype Step =
    | Wait(isDownload: bool)
    | RequestCompleted(id: nat)
    | Invoke(k: nat)
    | Revive
    | TokenRefreshed
    | Close(policy: StopPolicy)
    | LogOut
    | ShutDown
    | FatalErrorWhileDying
    | UploadCompleted(deathCount: nat)
    | CancelPendingWaits
    | Deactivate
    | ResyncBegin
    | ResyncEnd(k: nat)

  function Callbacks(entries: seq<Entry>): seq<nat> {
    seq(|entries|, k requires 0 <= k < |entries| => entries[k].callback)
  }

  /** File a callback under the next request number; a live underlying session is told. */
  function Filed(s: Session, isDownload: bool, callback: nat): Session {
    s.(requests := s.requests + 1,
       pending := s.pending + [Entry(s.requests + 1, isDownload, callback)],
       registered := if s.state == Inactive then s.registered else s.registered + {s.requests + 1})
  }

  function FiledAll(s: Session, entries: seq<Entry>): Session
    decreases |entries|
  {
    if entries == [] then s else FiledAll(Filed(s, entries[0].isDownload, entries[0].callback), entries[1..])
  }

  /** Active, with a fresh underlying session if there was none, and with nothing filed yet. */
  function Reactivated(s: Session): Session {
    s.(state := Active, hasSession := true, registered := if s.hasSession then s.registered else {}, pending := [])
  }

  /** All pending callbacks are filed again, under new requests. */
  function EnterActive(s: Session): Session {
    FiledAll(Reactivated(s), s.pending)
  }

  function EnterInactive(s: Session): Session {
    s.(state := Inactive, hasSession := false, registered := {},
       inFlight := s.inFlight + Callbacks(s.pending), pending := [])
  }

  function EnterDying(s: Session): Session {
    if !s.hasSession then EnterInactive(s)
    else s.(state := Dying, deathCount := s.deathCount + 1)
  }

  /** Position of the entry filed under `id`, or the number of entries. */
  function FindEntry(entries: seq<Entry>, id: nat): (k: nat)
    ensures k <= |entries| && (k < |entries| ==> entries[k].id == id)
    ensures forall x :: 0 <= x < k ==> entries[x].id != id
  {
    if entries == [] then 0 else if entries[0].id == id then 0 else 1 + FindEntry(entries[1..], id)
  }

  /** Transitions to the state that a session is in already stop the process. */
  predicate Enabled(s: Session, step: Step) {
    match step
    case Invoke(k) => k < |s.inFlight|
    case TokenRefreshed => s.hasSession || s.state != Active
    case Deactivate => s.state != Inactive
    case ResyncBegin => s.state != Inactive
    case ResyncEnd(k) => k < |s.aside|
    case _ => true
  }

  function Next(s: Session, step: Step): Session
    requires Enabled(s, step)
  {
    match step
    case Wait(isDownload) => Filed(s, isDownload, s.given).(given := s.given + 1)
    case RequestCompleted(id) =>
      var k := FindEntry(s.pending, id);
      if k < |s.pending| then
        s.(pending := RemoveAt(s.pending, k), inFlight := s.inFlight + [s.pending[k].callback])
      else s
    case Invoke(k) => s.(inFlight := RemoveAt(s.inFlight, k), invoked := s.invoked + [s.inFlight[k]])
    case Revive => if s.state == Active then s else EnterActive(s)
    case TokenRefreshed => if s.hasSession then s else EnterActive(s)
    case Close(policy) =>
      if s.state != Active then s else
        (match policy
         case Immediately => EnterInactive(s)
         case LiveIndefinitely => s
         case AfterChangesUploaded => EnterDying(s))
    case LogOut => if s.state == Inactive then s else EnterInactive(s)
    case ShutDown => if s.state == Inactive then s else EnterInactive(s)
    case FatalErrorWhileDying => if s.state == Dying then EnterInactive(s) else s
    case UploadCompleted(deathCount) =>
      if s.state == Dying && s.deathCount == deathCount then EnterInactive(s) else s
    case CancelPendingWaits => s.(inFlight := s.inFlight + Callbacks(s.pending), pending := [])
    case Deactivate => EnterInactive(s)
    case ResyncBegin => EnterInactive(s.(aside := s.aside + [s.pending], pending := []))
    case ResyncEnd(k) =>
      s.(pending := s.aside[k], lost := s.lost + Callbacks(s.pending), aside := RemoveAt(s.aside, k))
  }

  // ---------------------------------------------------------------------------
  // The ledger

  /** Everything that ever happened to a callback, in one place. */
  function Ledger(s: Session): multiset<nat> {
    multiset(Callbacks(s.pending)) + multiset(s.inFlight) + AsideLedger(s.aside)
      + multiset(s.invoked) + multiset(s.lost)
  }

  function Given(n: nat): multiset<nat> {
    if n == 0 then multiset{} else Given(n - 1) + multiset{n - 1}
  }

  /** Every callback that was given is in exactly one place; the underlying session exists
      exactly while the session is active or dying. */
  ghost predicate Consistent(s: Session) {
    && Ledger(s) == Given(s.given)
    && (s.hasSession <==> s.state != Inactive)
  }

  lemma CallbacksAppend(a: seq<Entry>, b: seq<Entry>)
    ensures Callbacks(a + b) == Callbacks(a) + Callbacks(b)
  {
  }

  lemma CallbacksOne(e: Entry)
    ensures Callbacks([e]) == [e.callback]
  {
  }

  lemma CallbacksNone()
    ensures Callbacks([]) == []
  {
  }

  lemma CallbacksRemove(a: seq<Entry>, k: nat)
    requires k < |a|
    ensures multiset(Callbacks(a)) == multiset(Callbacks(RemoveAt(a, k))) + multiset{a[k].callback}
  {
    assert a == a[..k] + [a[k]] + a[k + 1..];
    CallbacksAppend(a[..k], [a[k]]);
    CallbacksAppend(a[..k] + [a[k]], a[k + 1..]);
    CallbacksAppend(a[..k], a[k + 1..]);
    assert Callbacks([a[k]]) == [a[k].callback];
  }

  lemma RemoveAtMultiset<T>(s: seq<T>, k: nat)
    requires k < |s|
    ensures multiset(s) == multiset(RemoveAt(s, k)) + multiset{s[k]}
  {
    assert s == s[..k] + [s[k]] + s[k + 1..];
  }

  function AsideLedger(aside: seq<seq<Entry>>): multiset<nat> {
    if aside == [] then multiset{} else AsideLedger(aside[..|aside| - 1]) + multiset(Callbacks(aside[|aside| - 1]))
  }

  lemma RemoveBeforeLast(aside: seq<seq<Entry>>, k: nat)
    requires k < |aside| - 1
    ensures var rest, last := RemoveAt(aside, k), |aside| - 1;
            |rest| == last && rest[..last - 1] == RemoveAt(aside[..last], k) && rest[last - 1] == aside[last]
  {
  }

  lemma {:induction false} AsideRemove(aside: seq<seq<Entry>>, k: nat)
    requires k < |aside|
    ensures AsideLedger(aside) == AsideLedger(RemoveAt(aside, k)) + multiset(Callbacks(aside[k]))
  {
    hide Callbacks, AsideLedger, RemoveAt;
    var last := |aside| - 1;
    AsideLast(aside);
    if k < last {
      AsideRemove(aside[..last], k);
      RemoveBeforeLast(aside, k);
      AsideLast(RemoveAt(aside, k));
    } else {
      RemoveTheLast(aside);
    }
  }

  lemma AsideLast(aside: seq<seq<Entry>>)
    requires aside != []
    ensures AsideLedger(aside) ==
              AsideLedger(aside[..|aside| - 1]) + multiset(Callbacks(aside[|aside| - 1]))
  {
  }

  lemma RemoveTheLast(aside: seq<seq<Entry>>)
    requires aside != []
    ensures RemoveAt(aside, |aside| - 1) == aside[..|aside| - 1]
  {
  }

  lemma {:induction false} FiledAllLedger(s: Session, entries: seq<Entry>)
    ensures var r := FiledAll(s, entries);
            && multiset(Callbacks(r.pending)) == multiset(Callbacks(s.pending)) + multiset(Callbacks(entries))
            && r == s.(requests := r.requests, pending := r.pending, registered := r.registered)
    decreases |entries|
  {
    CallbacksNone();
    hide Callbacks;
    if entries != [] {
      var f := Filed(s, entries[0].isDownload, entries[0].callback);
      FiledAllLedger(f, entries[1..]);
      var e := Entry(s.requests + 1, entries[0].isDownload, entries[0].callback);
      CallbacksAppend(s.pending, [e]);
      CallbacksOne(e);
      assert entries == [entries[0]] + entries[1..];
      CallbacksAppend([entries[0]], entries[1..]);
      CallbacksOne(entries[0]);
    }
  }

  lemma EnterActiveLedger(s: Session)
    ensures var r := EnterActive(s);
            && Ledger(r) == Ledger(s) && r.given == s.given && r.lost == s.lost
            && r.state == Active && r.hasSession && r.deathCount == s.deathCount
  {
    FiledAllLedger(Reactivated(s), s.pending);
    assert Callbacks([]) == [];
  }

  lemma EnterInactiveLedger(s: Session)
    ensures Ledger(EnterInactive(s)) == Ledger(s)
  {
    assert Callbacks([]) == [];
  }

  lemma WaitLedger(s: Session, isDownload: bool)
    ensures Ledger(Next(s, Wait(isDownload))) == Ledger(s) + multiset{s.given}
  {
    hide Callbacks;
    var e := Entry(s.requests + 1, isDownload, s.given);
    CallbacksAppend(s.pending, [e]);
    CallbacksOne(e);
  }

  lemma CompletedLedger(s: Session, id: nat)
    ensures Ledger(Next(s, RequestCompleted(id))) == Ledger(s)
  {
    var k := FindEntry(s.pending, id);
    if k < |s.pending| {
      CallbacksRemove(s.pending, k);
    }
  }

  lemma InvokeLedger(s: Session, k: nat)
    requires k < |s.inFlight|
    ensures Ledger(Next(s, Invoke(k))) == Ledger(s)
  {
    RemoveAtMultiset(s.inFlight, k);
  }

  lemma CancelLedger(s: Session)
    ensures Ledger(Next(s, CancelPendingWaits)) == Ledger(s)
  {
    assert Callbacks([]) == [];
  }

  lemma ResyncBeginLedger(s: Session)
    requires s.state != Inactive
    ensures Ledger(Next(s, ResyncBegin)) == Ledger(s)
  {
    var t := s.(aside := s.aside + [s.pending], pending := []);
    assert t.aside[..|t.aside| - 1] == s.aside;
    assert Callbacks([]) == [];
    EnterInactiveLedger(t);
  }

  lemma ResyncEndLedger(s: Session, k: nat)
    requires k < |s.aside|
    ensures Ledger(Next(s, ResyncEnd(k))) == Ledger(s)
  {
    hide Callbacks, AsideLedger;
    AsideRemove(s.aside, k);
  }

  /** The underlying session goes along with the state. */
  lemma StepShape(s: Session, step: Step)
    requires Enabled(s, step) && (s.hasSession <==> s.state != Inactive)
    ensures var r := Next(s, step);
            && (r.hasSession <==> r.state != Inactive)
            && r.given == s.given + if step.Wait? then 1 else 0
  {
    hide Ledger, EnterActive, Callbacks, FiledAll, FindEntry, RemoveAt;
    EnterActiveLedger(s);
  }

  lemma StepLedger(s: Session, step: Step)
    requires Enabled(s, step)
    ensures Ledger(Next(s, step)) == Ledger(s) + if step.Wait? then multiset{s.given} else multiset{}
  {
    hide Ledger, EnterActive, Callbacks, Filed, EnterInactive, EnterDying, FindEntry, RemoveAt;
    match step
    case Wait(isDownload) => WaitLedger(s, isDownload);
    case RequestCompleted(id) => CompletedLedger(s, id);
    case Invoke(k) => InvokeLedger(s, k);
    case CancelPendingWaits => CancelLedger(s);
    case ResyncBegin => ResyncBeginLedger(s);
    case ResyncEnd(k) => ResyncEndLedger(s, k);
    case _ =>
      EnterActiveLedger(s);
      EnterInactiveLedger(s);
      DyingLedger(s);
  }

  /** Every step moves callbacks around and drops or duplicates none. */
  lemma StepKeepsConsistent(s: Session, step: Step)
    requires Consistent(s) && Enabled(s, step)
    ensures Consistent(Next(s, step))
  {
    hide Ledger, Next;
    StepShape(s, step);
    StepLedger(s, step);
  }

  lemma FiledState(s: Session, isDownload: bool)
    ensures var r := Filed(s, isDownload, s.given);
            && r.state == s.state && r.hasSession == s.hasSession && r.deathCount == s.deathCount
            && r.given == s.given && r.lost == s.lost
  {
  }

  lemma DyingLedger(s: Session)
    ensures Ledger(EnterDying(s)) == Ledger(s)
  {
    EnterInactiveLedger(s);
  }

  // ---------------------------------------------------------------------------
  // Runs

  ghost predicate IsRun(states: seq<Session>, steps: seq<Step>) {
    && |states| == |steps| + 1
    && states[0] == INITIAL
    && forall k :: 0 <= k < |steps| ==> Enabled(states[k], steps[k]) && states[k + 1] == Next(states[k], steps[k])
  }

  lemma {:induction false} RunConsistent(states: seq<Session>, steps: seq<Step>, k: nat)
    requires IsRun(states, steps) && k < |states|
    ensures Consistent(states[k])
  {
    if k == 0 {
      assert Callbacks([]) == [];
    } else {
      RunConsistent(states, steps, k - 1);
      StepKeepsConsistent(states[k - 1], steps[k - 1]);
    }
  }

  lemma {:induction false} GivenOnce(n: nat, callback: nat)
    ensures Given(n)[callback] == if callback < n then 1 else 0
  {
    if n > 0 {
      GivenOnce(n - 1, callback);
    }
  }

  lemma TwiceInSequence(s: seq<nat>, x: nat, y: nat)
    requires 0 <= x < y < |s| && s[x] == s[y]
    ensures multiset(s)[s[x]] >= 2
  {
    RemoveAtMultiset(s, y);
    assert RemoveAt(s, y)[x] == s[x];
    assert s[x] in multiset(RemoveAt(s, y));
  }

  /** In every run every callback is invoked at most once, and only if it was given. */
  lemma InvokedAtMostOnce(states: seq<Session>, steps: seq<Step>, k: nat, x: nat, y: nat)
    requires IsRun(states, steps) && k < |states| && x < |states[k].invoked|
    ensures states[k].invoked[x] < states[k].given
    ensures x < y < |states[k].invoked| ==> states[k].invoked[x] != states[k].invoked[y]
  {
    var s := states[k];
    RunConsistent(states, steps, k);
    GivenOnce(s.given, s.invoked[x]);
    assert s.invoked[x] in multiset(s.invoked);
    if x < y < |s.invoked| && s.invoked[x] == s.invoked[y] {
      TwiceInSequence(s.invoked, x, y);
    }
  }

  /** Where a callback is: pending, about to be invoked, invoked, or set aside by a resync. */
  ghost predicate Accounted(s: Session, callback: nat) {
    || callback in Callbacks(s.pending)
    || callback in s.inFlight
    || callback in s.invoked
    || callback in AsideLedger(s.aside)
  }

  /** Every callback that was given is accounted for, unless it was lost. */
  lemma GivenIsAccounted(states: seq<Session>, steps: seq<Step>, k: nat, callback: nat)
    requires IsRun(states, steps) && k < |states| && callback < states[k].given
    ensures Accounted(states[k], callback) <==> callback !in states[k].lost
  {
    hide Callbacks;
    var s := states[k];
    RunConsistent(states, steps, k);
    GivenOnce(s.given, callback);
    assert (callback in Callbacks(s.pending) <==> callback in multiset(Callbacks(s.pending)))
        && (callback in s.inFlight <==> callback in multiset(s.inFlight))
        && (callback in s.invoked <==> callback in multiset(s.invoked))
        && (callback in s.lost <==> callback in multiset(s.lost));
  }

  /** Only the end of a resync loses callbacks, namely those that came in while it was under way. */
  lemma StepLoses(s: Session, step: Step)
    requires Enabled(s, step)
    ensures Next(s, step).lost == s.lost + if step.ResyncEnd? then Callbacks(s.pending) else []
  {
    hide EnterActive, Ledger;
    EnterActiveLedger(s);
  }

  /** A run loses no callback exactly if no resync ends while other callbacks are pending. */
  lemma {:induction false} NothingLostIff(states: seq<Session>, steps: seq<Step>, k: nat)
    requires IsRun(states, steps) && k < |states|
    ensures states[k].lost == [] <==> forall i :: 0 <= i < k && steps[i].ResyncEnd? ==> states[i].pending == []
    decreases k
  {
    if k > 0 {
      NothingLostIff(states, steps, k - 1);
      StepLoses(states[k - 1], steps[k - 1]);
    }
  }

  /** If every resync is carried through without interruption, nothing is ever lost. */
  lemma UninterruptedResync(states: seq<Session>, steps: seq<Step>, k: nat)
    requires IsRun(states, steps) && k < |states|
    requires forall i :: 0 <= i < |steps| && steps[i].ResyncEnd? ==> i > 0 && steps[i - 1].ResyncBegin?
    ensures states[k].lost == []
    ensures forall callback: nat :: callback < states[k].given ==> Accounted(states[k], callback)
  {
    forall i | 0 <= i < k && steps[i].ResyncEnd? ensures states[i].pending == [] {
      assert states[i] == Next(states[i - 1], steps[i - 1]);
    }
    NothingLostIff(states, steps, k);
    forall callback: nat | callback < states[k].given ensures Accounted(states[k], callback) {
      GivenIsAccounted(states, steps, k, callback);
    }
  }

  /** A callback that is given while a resync is under way is lost when the resync ends. */
  lemma InterruptedResyncLoses()
    ensures exists states: seq<Session>, steps: seq<Step> :: IsRun(states, steps) && states[|steps|].lost != []
  {
    var steps := [Revive, ResyncBegin, Wait(true), ResyncEnd(0)];
    var s1 := Next(INITIAL, Revive);
    var s2 := Next(s1, ResyncBegin);
    var s3 := Next(s2, Wait(true));
    var s4 := Next(s3, ResyncEnd(0));
    assert s1.state == Active && s2.aside == [[]] && |s3.pending| == 1;
    assert |s4.lost| == 1;
    hide Next, Callbacks;
    var states := [INITIAL, s1, s2, s3, s4];
    forall k | 0 <= k < |steps| ensures Enabled(states[k], steps[k]) && states[k + 1] == Next(states[k], steps[k]) {
      assert k == 0 || k == 1 || k == 2 || k == 3;
    }
    assert IsRun(states, steps);
  }

  // ---------------------------------------------------------------------------
  // Registration with the underlying session

  /** A live underlying session will report every pending request. */
  ghost predicate PendingRegistered(s: Session) {
    s.state != Inactive ==> forall e <- s.pending :: e.id in s.registered
  }

  lemma {:induction false} FiledAllRegistered(s: Session, entries: seq<Entry>)
    requires PendingRegistered(s)
    ensures PendingRegistered(FiledAll(s, entries))
    decreases |entries|
  {
    if entries != [] {
      FiledAllRegistered(Filed(s, entries[0].isDownload, entries[0].callback), entries[1..]);
    }
  }

  /** What a step must not do: put entries back into a live session that it does not know of. */
  ghost predicate Harmless(s: Session, step: Step)
    requires Enabled(s, step)
  {
    step.ResyncEnd? && s.state != Inactive ==> forall e <- s.aside[step.k] :: e.id in s.registered
  }

  /** All pending requests are known after a step if and only if the step is harmless. */
  lemma StepKeepsRegisteredIff(s: Session, step: Step)
    requires Enabled(s, step) && PendingRegistered(s)
    ensures PendingRegistered(Next(s, step)) <==> Harmless(s, step)
  {
    hide FiledAll;
    FiledAllRegistered(Reactivated(s), s.pending);
  }

  /** In every run: a live session knows all its pending requests throughout if and only if every
      step is harmless. */
  lemma {:induction false} RunRegisteredIff(states: seq<Session>, steps: seq<Step>, k: nat)
    requires IsRun(states, steps) && k < |states|
    ensures (forall i :: 0 <= i <= k ==> PendingRegistered(states[i]))
       <==> (forall i :: 0 <= i < k ==> Harmless(states[i], steps[i]))
    decreases k
  {
    hide PendingRegistered, Harmless, Next;
    if k == 0 {
      InitiallyRegistered();
    } else {
      RunRegisteredIff(states, steps, k - 1);
      var known := forall i :: 0 <= i <= k - 1 ==> PendingRegistered(states[i]);
      var harmless := forall i :: 0 <= i < k - 1 ==> Harmless(states[i], steps[i]);
      assert (forall i :: 0 <= i <= k ==> PendingRegistered(states[i])) <==> known && PendingRegistered(states[k]);
      assert (forall i :: 0 <= i < k ==> Harmless(states[i], steps[i])) <==>
                harmless && Harmless(states[k - 1], steps[k - 1]);
      if known {
        assert PendingRegistered(states[k - 1]) && states[k] == Next(states[k - 1], steps[k - 1]);
        StepKeepsRegisteredIff(states[k - 1], steps[k - 1]);
      }
    }
  }

  lemma InitiallyRegistered()
    ensures PendingRegistered(INITIAL)
  {
  }

  /** In particular if no resync ends after the session was revived under it. */
  lemma RunRegistered(states: seq<Session>, steps: seq<Step>, k: nat)
    requires IsRun(states, steps) && k < |states|
    requires forall i :: 0 <= i < k && steps[i].ResyncEnd? ==> states[i].state == Inactive
    ensures PendingRegistered(states[k])
  {
    hide PendingRegistered, Next;
    RunRegisteredIff(states, steps, k);
  }

  /** A request that is on record nowhere: its number has been given out, and no entry has it. */
  ghost predicate Unfiled(s: Session, id: nat) {
    id <= s.requests && forall e <- s.pending :: e.id != id
  }

  lemma {:induction false} FiledAllNew(s: Session, entries: seq<Entry>, id: nat)
    requires Unfiled(s, id)
    ensures Unfiled(FiledAll(s, entries), id)
    decreases |entries|
  {
    if entries != [] {
      FiledAllNew(Filed(s, entries[0].isDownload, entries[0].callback), entries[1..], id);
    }
  }

  /** Filing everything again, as a revival does, leaves no earlier request on record. */
  lemma RevivalUnfiles(s: Session, id: nat)
    requires id <= s.requests
    ensures Unfiled(EnterActive(s), id)
  {
    FiledAllNew(Reactivated(s), s.pending, id);
  }

  lemma UnfiledStaysUnfiled(s: Session, step: Step, id: nat)
    requires Enabled(s, step) && Unfiled(s, id)
    requires step.ResyncEnd? ==> forall e <- s.aside[step.k] :: e.id != id
    ensures Unfiled(Next(s, step), id)
  {
    hide EnterActive, FiledAll, Callbacks;
    RevivalUnfiles(s, id);
  }

  lemma UnfiledHasNoEffect(s: Session, id: nat)
    requires Unfiled(s, id)
    ensures Next(s, RequestCompleted(id)) == s
  {
  }

  /** After a revival at step `i` the completion of a request that was made before it has no effect
      at any later point of the run, until a resync puts an entry of that request back. */
  lemma {:induction false} StaleRequestIsIgnored(states: seq<Session>, steps: seq<Step>, i: nat, j: nat, id: nat)
    requires IsRun(states, steps) && i < j < |states|
    requires states[i + 1] == EnterActive(states[i]) && id <= states[i].requests
    requires forall l :: i < l < j && steps[l].ResyncEnd? ==> forall e <- states[l].aside[steps[l].k] :: e.id != id
    ensures Unfiled(states[j], id) && Next(states[j], RequestCompleted(id)) == states[j]
    decreases j
  {
    hide EnterActive, Unfiled;
    if j == i + 1 {
      RevivalUnfiles(states[i], id);
    } else {
      StaleRequestIsIgnored(states, steps, i, j - 1, id);
      UnfiledStaysUnfiled(states[j - 1], steps[j - 1], id);
    }
    UnfiledHasNoEffect(states[j], id);
  }

  // ---------------------------------------------------------------------------
  // Which request a callback is for

  /** Requests are on record in the order of their numbers, which have all been given out. */
  ghost predicate Ascending(entries: seq<Entry>, requests: nat) {
    && (forall x, y :: 0 <= x < y < |entries| ==> entries[x].id < entries[y].id)
    && forall x :: 0 <= x < |entries| ==> entries[x].id <= requests
  }

  ghost predicate InOrder(s: Session) {
    Ascending(s.pending, s.requests) && forall a <- s.aside :: Ascending(a, s.requests)
  }

  /** Everything is filed again in the same order, for the same kind, under the next numbers. */
  lemma {:induction false} FiledAllIs(s: Session, entries: seq<Entry>)
    ensures var r, n := FiledAll(s, entries), |s.pending|;
            && r.requests == s.requests + |entries| && |r.pending| == n + |entries|
            && (forall k :: 0 <= k < n ==> r.pending[k] == s.pending[k])
            && (forall k :: 0 <= k < |entries| ==>
                  r.pending[n + k] == Entry(s.requests + 1 + k, entries[k].isDownload, entries[k].callback))
            && forall id: nat :: id in r.registered <==>
                 id in s.registered || (s.state != Inactive && s.requests < id <= r.requests)
    decreases |entries|
  {
    if entries != [] {
      var f := Filed(s, entries[0].isDownload, entries[0].callback);
      FiledAllIs(f, entries[1..]);
      var r, n := FiledAll(s, entries), |s.pending|;
      assert forall k :: 0 < k < |entries| ==> entries[k] == entries[1..][k - 1];
      assert r.pending[n] == f.pending[n];
      forall k | 0 <= k < |entries|
        ensures r.pending[n + k] == Entry(s.requests + 1 + k, entries[k].isDownload, entries[k].callback)
      {
        assert k > 0 ==> r.pending[n + k] == r.pending[|f.pending| + (k - 1)];
      }
    }
  }

  lemma EnterActiveIs(s: Session)
    ensures var r := EnterActive(s);
            && r.requests == s.requests + |s.pending| && |r.pending| == |s.pending|
            && (forall k :: 0 <= k < |s.pending| ==>
                  r.pending[k] == Entry(s.requests + 1 + k, s.pending[k].isDownload, s.pending[k].callback))
            && (forall id: nat :: id in r.registered <==>
                  (s.hasSession && id in s.registered) || s.requests < id <= r.requests)
            && r == s.(state := Active, hasSession := true, requests := r.requests, pending := r.pending,
                       registered := r.registered)
  {
    FiledAllIs(Reactivated(s), s.pending);
    FiledAllLedger(Reactivated(s), s.pending);
  }

  lemma StepKeepsOrder(s: Session, step: Step)
    requires Enabled(s, step) && InOrder(s)
    ensures InOrder(Next(s, step)) && s.requests <= Next(s, step).requests
  {
    hide EnterActive, Filed, FiledAll, FindEntry, Callbacks, Ascending, RemoveAt;
    match step
    case Wait(isDownload) => FiledInOrder(s, isDownload, s.given);
    case RequestCompleted(id) => RemovedInOrder(s.pending, s.requests, FindEntry(s.pending, id));
    case ResyncEnd(k) =>
      assert s.aside[k] in s.aside;
      RemovedMembers(s.aside, k);
    case _ =>
      NoneInOrder(s.requests);
      EnterActiveInOrder(s);
  }

  lemma FiledInOrder(s: Session, isDownload: bool, callback: nat)
    requires InOrder(s)
    ensures InOrder(Filed(s, isDownload, callback)) && s.requests <= Filed(s, isDownload, callback).requests
  {
  }

  lemma RemovedInOrder(entries: seq<Entry>, requests: nat, k: nat)
    requires Ascending(entries, requests)
    ensures k < |entries| ==> Ascending(RemoveAt(entries, k), requests)
  {
  }

  lemma RemovedMembers(aside: seq<seq<Entry>>, k: nat)
    requires k < |aside|
    ensures forall a <- RemoveAt(aside, k) :: a in aside
  {
  }

  lemma NoneInOrder(requests: nat)
    ensures Ascending([], requests)
  {
  }

  lemma EnterActiveInOrder(s: Session)
    requires InOrder(s)
    ensures InOrder(EnterActive(s)) && s.requests <= EnterActive(s).requests
  {
    hide EnterActive;
    EnterActiveIs(s);
  }

  lemma {:induction false} RunInOrder(states: seq<Session>, steps: seq<Step>, k: nat)
    requires IsRun(states, steps) && k < |states|
    ensures InOrder(states[k])
  {
    hide InOrder, Next;
    if k == 0 {
      InitiallyInOrder();
    } else {
      RunInOrder(states, steps, k - 1);
      StepKeepsOrder(states[k - 1], steps[k - 1]);
    }
  }

  lemma InitiallyInOrder()
    ensures InOrder(INITIAL)
  {
  }

  /** In every run: the completion of a request takes out the callback that is filed under it, if there
      is one, and no other.  What stays pending stays in order. */
  lemma RequestTakesOutItsOwn(states: seq<Session>, steps: seq<Step>, k: nat, id: nat)
    requires IsRun(states, steps) && k < |states|
    ensures var s, r := states[k], Next(states[k], RequestCompleted(id));
            && (forall e :: e in r.pending <==> e in s.pending && e.id != id)
            && Ascending(r.pending, r.requests)
            && (forall e <- s.pending :: e.id == id ==> r.inFlight == s.inFlight + [e.callback])
            && ((forall e <- s.pending :: e.id != id) ==> r == s)
  {
    RunInOrder(states, steps, k);
    StepKeepsOrder(states[k], RequestCompleted(id));
    TakenOut(states[k].pending, states[k].requests, id);
  }

  lemma TakenOut(entries: seq<Entry>, requests: nat, id: nat)
    requires Ascending(entries, requests)
    ensures var k := FindEntry(entries, id);
            && (k == |entries| ==> forall e <- entries :: e.id != id)
            && (k < |entries| ==>
                  && (forall e <- entries :: e.id == id <==> e == entries[k])
                  && forall e :: e in RemoveAt(entries, k) <==> e in entries && e.id != id)
  {
    hide FindEntry, Ascending, RemoveAt;
    var k := FindEntry(entries, id);
    if k < |entries| {
      OnlyOne(entries, requests, k);
    }
  }

  lemma OnlyOne(entries: seq<Entry>, requests: nat, k: nat)
    requires Ascending(entries, requests) && k < |entries|
    ensures forall e <- entries :: e.id == entries[k].id <==> e == entries[k]
    ensures forall e :: e in RemoveAt(entries, k) <==> e in entries && e.id != entries[k].id
  {
    var low, high := entries[..k], entries[k + 1..];
    Apart(entries, requests, k);
    hide Ascending;
    assert entries == low + [entries[k]] + high;
    assert RemoveAt(entries, k) == low + high;
  }

  lemma Apart(entries: seq<Entry>, requests: nat, k: nat)
    requires Ascending(entries, requests) && k < |entries|
    ensures (forall e <- entries[..k] :: e.id != entries[k].id) && forall e <- entries[k + 1..] :: e.id != entries[k].id
  {
  }

  /** The callback of an entry was given for the kind of transfer that it is filed for. */
  ghost predicate WasGiven(states: seq<Session>, steps: seq<Step>, k: nat, e: Entry)
    requires k <= |steps| < |states|
  {
    exists i :: 0 <= i < k && steps[i] == Wait(e.isDownload) && states[i].given == e.callback
  }

  /** Through any number of revivals and resyncs a callback stays filed for what it was given for. */
  lemma {:induction false} FiledAsGiven(states: seq<Session>, steps: seq<Step>, k: nat)
    requires IsRun(states, steps) && k < |states|
    ensures forall e <- states[k].pending :: WasGiven(states, steps, k, e)
    ensures forall a <- states[k].aside, e <- a :: WasGiven(states, steps, k, e)
  {
    if k > 0 {
      FiledAsGiven(states, steps, k - 1);
      var s, step, r := states[k - 1], steps[k - 1], states[k];
      forall e <- s.pending ensures WasGiven(states, steps, k, e) {
        GivenBefore(states, steps, k - 1, e);
      }
      forall a <- s.aside, e <- a ensures WasGiven(states, steps, k, e) {
        GivenBefore(states, steps, k - 1, e);
      }
      StepFrom(s, step);
      forall e <- r.pending ensures WasGiven(states, steps, k, e) {
        if step.Wait? && e.isDownload == step.isDownload && e.callback == s.given {
          assert steps[k - 1] == Wait(e.isDownload);
        } else {
          var e' :| SameRequest(e, e') && (e' in s.pending || exists a :: a in s.aside && e' in a);
          assert WasGiven(states, steps, k, e');
        }
      }
    }
  }

  lemma GivenBefore(states: seq<Session>, steps: seq<Step>, k: nat, e: Entry)
    requires k < |steps| < |states| && WasGiven(states, steps, k, e)
    ensures WasGiven(states, steps, k + 1, e)
  {
  }

  ghost predicate SameRequest(e: Entry, e': Entry) {
    e.isDownload == e'.isDownload && e.callback == e'.callback
  }

  /** Where the entries of a step come from. */
  lemma StepFrom(s: Session, step: Step)
    requires Enabled(s, step)
    ensures forall e <- Next(s, step).pending ::
              || (step.Wait? && e.isDownload == step.isDownload && e.callback == s.given)
              || exists e' :: SameRequest(e, e') && (e' in s.pending || exists a :: a in s.aside && e' in a)
    ensures forall a <- Next(s, step).aside :: a in s.aside || a == s.pending
  {
    hide EnterActive, FiledAll, FindEntry, Callbacks;
    EnterActiveIs(s);
    var r := Next(s, step);
    forall e | e in r.pending && !(step.Wait? && e.isDownload == step.isDownload && e.callback == s.given)
      ensures exists e' :: SameRequest(e, e') && (e' in s.pending || exists a :: a in s.aside && e' in a)
    {
      if r == EnterActive(s) {
        var k :| 0 <= k < |r.pending| && r.pending[k] == e;
        assert SameRequest(e, s.pending[k]) && s.pending[k] in s.pending;
      } else {
        assert SameRequest(e, e);
        assert step.ResyncEnd? ==> s.aside[step.k] in s.aside;
      }
    }
  }

  // ---------------------------------------------------------------------------
  // Dying

  /** Once a dying period is over, its number never comes back. */
  ghost predicate Past(s: Session, deathCount: nat) {
    s.deathCount > deathCount || (s.deathCount == deathCount && s.state != Dying)
  }

  lemma PastIsPast(s: Session, step: Step, deathCount: nat)
    requires Enabled(s, step) && Past(s, deathCount)
    ensures Past(Next(s, step), deathCount)
  {
    hide EnterActive, Ledger, Filed;
    EnterActiveLedger(s);
    if step.Wait? {
      FiledState(s, step.isDownload);
    }
  }

  lemma {:induction false} PastStaysPast(states: seq<Session>, steps: seq<Step>, i: nat, j: nat, deathCount: nat)
    requires IsRun(states, steps) && i <= j < |states| && Past(states[i], deathCount)
    ensures Past(states[j], deathCount)
    decreases j - i
  {
    if i < j {
      PastIsPast(states[i], steps[i], deathCount);
      PastStaysPast(states, steps, i + 1, j, deathCount);
    }
  }

  /** An upload that was awaited in one dying period can end that period only: if its completion
      deactivates the session, the session has been dying ever since the wait was registered. */
  lemma UploadEndsItsOwnPeriod(states: seq<Session>, steps: seq<Step>, i: nat, j: nat, k: nat)
    requires IsRun(states, steps) && i < j < |steps| && i < k <= j
    requires states[i].state != Dying && states[i + 1].state == Dying
    requires steps[j] == UploadCompleted(states[i + 1].deathCount)
    requires states[j].state == Dying && states[j + 1].state == Inactive
    ensures states[k].state == Dying && states[k].deathCount == states[i + 1].deathCount
  {
    var n := states[i + 1].deathCount;
    assert states[j].deathCount == n by {
      assert states[j + 1] == Next(states[j], steps[j]);
    }
    if Past(states[k], n) {
      PastStaysPast(states, steps, k, j, n);
    }
    DeathCountGrows(states, steps, i + 1, k);
  }

  lemma {:induction false} DeathCountGrows(states: seq<Session>, steps: seq<Step>, i: nat, j: nat)
    requires IsRun(states, steps) && i <= j < |states|
    ensures states[i].deathCount <= states[j].deathCount
    decreases j - i
  {
    if i < j {
      var s, step := states[i], steps[i];
      assert s.deathCount <= Next(s, step).deathCount by {
        EnterActiveLedger(s);
      }
      DeathCountGrows(states, steps, i + 1, j);
    }
  }

  /** Which steps end a live session; but for a resync, all that was pending is then about to be invoked. */
  lemma DeactivatesIff(s: Session, step: Step)
    requires Enabled(s, step) && s.state != Inactive && s.hasSession
    ensures Next(s, step).state == Inactive <==>
              || step.LogOut? || step.ShutDown? || step.Deactivate? || step.ResyncBegin?
              || (step.Close? && step.policy == Immediately && s.state == Active)
              || (step.FatalErrorWhileDying? && s.state == Dying)
              || (step.UploadCompleted? && s.state == Dying && step.deathCount == s.deathCount)
    ensures Next(s, step).state == Inactive && !step.ResyncBegin? ==>
              Next(s, step).pending == [] && Next(s, step).inFlight == s.inFlight + Callbacks(s.pending)
  {
    hide EnterActive, FiledAll, Callbacks, FindEntry, RemoveAt;
    EnterActiveIs(s);
  }

  /** Which steps bring a session up, or bring one that is going down back. */
  lemma ActivatesIff(s: Session, step: Step)
    requires Enabled(s, step) && s.state != Active
    ensures Next(s, step).state == Active <==> step.Revive? || (step.TokenRefreshed? && !s.hasSession)
    ensures Next(s, step).state == Active ==> forall k :: 0 <= k < |s.pending| ==>
              && k < |Next(s, step).pending|
              && Next(s, step).pending[k] == Entry(s.requests + 1 + k, s.pending[k].isDownload, s.pending[k].callback)
  {
    hide EnterActive, FiledAll, Callbacks, FindEntry, RemoveAt;
    EnterActiveIs(s);
  }

  /** Callbacks are invoked that were taken out, one at a time. */
  lemma InvokeTakesOne(s: Session, k: nat)
    requires Enabled(s, Invoke(k))
    ensures var r := Next(s, Invoke(k));
            && r.invoked == s.invoked + [s.inFlight[k]]
            && s.inFlight == r.inFlight[..k] + [s.inFlight[k]] + r.inFlight[k..]
            && r == s.(invoked := r.invoked, inFlight := r.inFlight)
  {
  }

  /** The underlying session exists exactly while the session is active or dying. */
  lemma SessionExistsIff(states: seq<Session>, steps: seq<Step>, k: nat)
    requires IsRun(states, steps) && k < |states|
    ensures states[k].hasSession <==> states[k].state != Inactive
  {
    RunConsistent(states, steps, k);
  }

  // ---------------------------------------------------------------------------
  // In place

  class SyncSession {
    var state: State
    var hasSession: bool
    var deathCount: nat
    var completionRequestCounter: nat
    var completionCallbacks: seq<Entry>
    var registered: set<nat>
    /** Callbacks that a step has taken out, to be invoked once the lock is released. */
    var toInvoke: seq<nat>
    ghost var aside: seq<seq<Entry>>
    ghost var invoked: seq<nat>
    ghost var lost: seq<nat>
    ghost var given: nat

    ghost function Value(): Session
      reads this
    {
      Session(state, hasSession, deathCount, completionRequestCounter, completionCallbacks, registered,
              toInvoke, invoked, aside, lost, given)
    }

    constructor ()
      ensures Value() == INITIAL
    {
      state, hasSession, deathCount, completionRequestCounter := Inactive, false, 0, 0;
      completionCallbacks, registered, toInvoke := [], {}, [];
      aside, invoked, lost, given := [], [], [], 0;
    }

    /** What only the end of an invocation or of a resync, or a new callback, changes. */
    twostate predicate SameHistory()
      reads this
    {
      && aside == old(aside) && invoked == old(invoked) && lost == old(lost) && given == old(given)
    }

    /** Inactive without an underlying session, and all that was pending is about to be invoked, in order. */
    twostate predicate WentDown()
      reads this
    {
      && state == Inactive && !hasSession && registered == {} && deathCount == old(deathCount) && SameHistory()
      && completionRequestCounter == old(completionRequestCounter)
      && completionCallbacks == [] && toInvoke == old(toInvoke) + Callbacks(old(completionCallbacks))
    }

    /** Active with an underlying session, which has been told of all that was pending, under new requests. */
    twostate predicate CameUp()
      reads this
    {
      var was, n := old(completionCallbacks), old(completionRequestCounter);
      && state == Active && hasSession && deathCount == old(deathCount) && toInvoke == old(toInvoke) && SameHistory()
      && completionRequestCounter == n + |was| && |completionCallbacks| == |was|
      && (forall k :: 0 <= k < |was| ==> completionCallbacks[k] == Entry(n + 1 + k, was[k].isDownload, was[k].callback))
      && forall id: nat :: id in registered <==>
           (old(hasSession) && id in old(registered)) || n < id <= completionRequestCounter
    }

    /** Dying for the next time, with everything as it was. */
    twostate predicate StartedDying()
      reads this
    {
      && state == Dying && hasSession == old(hasSession) && registered == old(registered) && SameHistory()
      && deathCount == old(deathCount) + 1 && completionRequestCounter == old(completionRequestCounter)
      && completionCallbacks == old(completionCallbacks) && toInvoke == old(toInvoke)
    }

    method AddCompletionCallback(isDownload: bool, callback: nat)
      modifies `completionRequestCounter, `completionCallbacks, `registered
      ensures completionRequestCounter == old(completionRequestCounter) + 1
      ensures completionCallbacks ==
                old(completionCallbacks) + [Entry(completionRequestCounter, isDownload, callback)]
      ensures registered == old(registered) + if state == Inactive then {} else {completionRequestCounter}
      ensures Value() == Filed(old(Value()), isDownload, callback)
    {
      completionRequestCounter := completionRequestCounter + 1;
      completionCallbacks := completionCallbacks + [Entry(completionRequestCounter, isDownload, callback)];
      if state == Inactive {
        return;
      }
      registered := registered + {completionRequestCounter};
    }

    /** Hand in a callback for the completion of all uploads or downloads. */
    method WaitForCompletion(isDownload: bool, callback: nat)
      requires callback == given
      modifies this
      ensures completionRequestCounter == old(completionRequestCounter) + 1 && given == old(given) + 1
      ensures completionCallbacks ==
                old(completionCallbacks) + [Entry(completionRequestCounter, isDownload, callback)]
      ensures registered == old(registered) + if state == Inactive then {} else {completionRequestCounter}
      ensures unchanged(`state, `hasSession, `deathCount, `toInvoke, `aside, `invoked, `lost)
      ensures Value() == Next(old(Value()), Wait(isDownload))
      ensures Consistent(old(Value())) ==> Consistent(Value())
    {
      hide Consistent, Ledger;
      if Consistent(Value()) {
        StepKeepsConsistent(Value(), Wait(isDownload));
      }
      AddCompletionCallback(isDownload, callback);
      given := given + 1;
    }

    method AdvanceToActive()
      requires state != Active
      modifies this
      ensures CameUp() && Value() == EnterActive(old(Value()))
    {
      EnterActiveIs(Value());
      state := Active;
      if !hasSession {
        hasSession, registered := true, {};
      }
      var callbacksToRegister := completionCallbacks;
      completionCallbacks := [];
      ghost var target := FiledAll(Value(), callbacksToRegister);
      for k := 0 to |callbacksToRegister|
        invariant FiledAll(Value(), callbacksToRegister[k..]) == target
      {
        assert callbacksToRegister[k..][0] == callbacksToRegister[k];
        assert callbacksToRegister[k..][1..] == callbacksToRegister[k + 1..];
        AddCompletionCallback(callbacksToRegister[k].isDownload, callbacksToRegister[k].callback);
      }
    }

    method AdvanceToInactive()
      requires state != Inactive
      modifies this
      ensures WentDown() && Value() == EnterInactive(old(Value()))
    {
      state := Inactive;
      TakeOutAll();
      hasSession, registered := false, {};
    }

    /** All pending callbacks are to be invoked as soon as the lock is released. */
    method TakeOutAll()
      modifies `completionCallbacks, `toInvoke
      ensures completionCallbacks == [] && toInvoke == old(toInvoke) + Callbacks(old(completionCallbacks))
    {
      var waits := completionCallbacks;
      completionCallbacks := [];
      for k := 0 to |waits|
        invariant completionCallbacks == [] && toInvoke == old(toInvoke) + Callbacks(waits[..k])
      {
        assert waits[..k + 1] == waits[..k] + [waits[k]];
        CallbacksAppend(waits[..k], [waits[k]]);
        assert Callbacks([waits[k]]) == [waits[k].callback];
        toInvoke := toInvoke + [waits[k].callback];
      }
      assert waits[..|waits|] == waits;
    }

    method AdvanceToDying()
      requires state == Active
      modifies this
      ensures if old(hasSession) then StartedDying() else WentDown()
      ensures Value() == EnterDying(old(Value()))
    {
      state := Dying;
      if !hasSession {
        AdvanceToInactive();
        return;
      }
      deathCount := deathCount + 1;
    }

    method ReviveIfNeeded()
      modifies this
      ensures if old(state) == Active then unchanged(this) else CameUp()
      ensures Value() == Next(old(Value()), Revive)
      ensures Consistent(old(Value())) ==> Consistent(Value())
    {
      hide Consistent, Ledger;
      if Consistent(Value()) {
        StepKeepsConsistent(Value(), Revive);
      }
      if state != Active {
        AdvanceToActive();
      }
    }

    method CloseSession(policy: StopPolicy)
      modifies this
      ensures if old(state) != Active || policy == LiveIndefinitely then unchanged(this)
              else if policy == AfterChangesUploaded && old(hasSession) then StartedDying()
              else WentDown()
      ensures Value() == Next(old(Value()), Close(policy))
      ensures Consistent(old(Value())) ==> Consistent(Value())
    {
      hide Consistent, Ledger;
      if Consistent(Value()) {
        StepKeepsConsistent(Value(), Close(policy));
      }
      if state == Active {
        match policy
        case Immediately => AdvanceToInactive();
        case LiveIndefinitely =>
        case AfterChangesUploaded => AdvanceToDying();
      }
    }

    method LogOutSession()
      modifies this
      ensures if old(state) == Inactive then unchanged(this) else WentDown()
      ensures Value() == Next(old(Value()), LogOut)
      ensures Consistent(old(Value())) ==> Consistent(Value())
    {
      hide Consistent, Ledger;
      if Consistent(Value()) {
        StepKeepsConsistent(Value(), LogOut);
      }
      if state != Inactive {
        AdvanceToInactive();
      }
    }

    /** The wait that was registered when the session started to die for the `n`-th time is over. */
    method OnUploadCompleted(n: nat)
      modifies this
      ensures if old(state) == Dying && old(deathCount) == n then WentDown() else unchanged(this)
      ensures Value() == Next(old(Value()), UploadCompleted(n))
      ensures Consistent(old(Value())) ==> Consistent(Value())
    {
      hide Consistent, Ledger;
      if Consistent(Value()) {
        StepKeepsConsistent(Value(), UploadCompleted(n));
      }
      if state == Dying && deathCount == n {
        AdvanceToInactive();
      }
    }

    /** The underlying session reports a request: its callback, if still pending, is taken out. */
    method OnRequestCompleted(id: nat)
      modifies this
      ensures unchanged(`state, `hasSession, `deathCount, `completionRequestCounter, `registered) && SameHistory()
      ensures InOrder(old(Value())) ==>
                && InOrder(Value())
                && (forall e :: e in completionCallbacks <==> e in old(completionCallbacks) && e.id != id)
                && (forall e <- old(completionCallbacks) :: e.id == id ==> toInvoke == old(toInvoke) + [e.callback])
      ensures (forall e <- old(completionCallbacks) :: e.id != id) ==> unchanged(this)
      ensures Value() == Next(old(Value()), RequestCompleted(id))
      ensures Consistent(old(Value())) ==> Consistent(Value())
    {
      hide Consistent, Ledger, Ascending, FindEntry;
      if InOrder(Value()) {
        StepKeepsOrder(Value(), RequestCompleted(id));
        TakenOut(completionCallbacks, completionRequestCounter, id);
      }
      if Consistent(Value()) {
        StepKeepsConsistent(Value(), RequestCompleted(id));
      }
      var k := FindEntry(completionCallbacks, id);
      if k < |completionCallbacks| {
        toInvoke := toInvoke + [completionCallbacks[k].callback];
        completionCallbacks := completionCallbacks[..k] + completionCallbacks[k + 1..];
      }
    }

    method CancelWaits()
      modifies this
      ensures completionCallbacks == [] && toInvoke == old(toInvoke) + Callbacks(old(completionCallbacks))
      ensures unchanged(`state, `hasSession, `deathCount, `completionRequestCounter, `registered) && SameHistory()
      ensures Value() == Next(old(Value()), CancelPendingWaits)
      ensures Consistent(old(Value())) ==> Consistent(Value())
    {
      hide Consistent, Ledger;
      if Consistent(Value()) {
        StepKeepsConsistent(Value(), CancelPendingWaits);
      }
      TakeOutAll();
    }

    /** First half of a client resync: callbacks are held aside while the session goes down. */
    method BeginResync() returns (callbacks: seq<Entry>)
      requires state != Inactive
      modifies this
      ensures state == Inactive && !hasSession && registered == {} && completionCallbacks == []
      ensures aside == old(aside) + [old(completionCallbacks)]
      ensures unchanged(`toInvoke, `deathCount, `completionRequestCounter, `invoked, `lost, `given)
      ensures Value() == Next(old(Value()), ResyncBegin)
      ensures callbacks == old(completionCallbacks)
      ensures Consistent(old(Value())) ==> Consistent(Value())
    {
      hide Consistent, Ledger;
      if Consistent(Value()) {
        StepKeepsConsistent(Value(), ResyncBegin);
      }
      callbacks := completionCallbacks;
      completionCallbacks := [];
      aside := aside + [callbacks];
      CallbacksNone();
      AdvanceToInactive();
      assert toInvoke == old(toInvoke) + [] == old(toInvoke);
    }

    /** Second half: they are put back, in place of whatever has come in meanwhile. */
    method EndResync(callbacks: seq<Entry>, ghost k: nat)
      requires k < |aside| && aside[k] == callbacks
      modifies this
      ensures completionCallbacks == callbacks && lost == old(lost) + Callbacks(old(completionCallbacks))
      ensures aside == old(aside[..k]) + old(aside[k + 1..])
      ensures unchanged(`state, `hasSession, `deathCount, `completionRequestCounter, `registered, `toInvoke)
      ensures unchanged(`invoked, `given)
      ensures Value() == Next(old(Value()), ResyncEnd(k))
      ensures Consistent(old(Value())) ==> Consistent(Value())
    {
      hide Consistent, Ledger;
      if Consistent(Value()) {
        StepKeepsConsistent(Value(), ResyncEnd(k));
      }
      lost := lost + Callbacks(completionCallbacks);
      completionCallbacks := callbacks;
      aside := RemoveAt(aside, k);
    }
  }
}
