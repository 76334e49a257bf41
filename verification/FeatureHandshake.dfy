/** The ProcessEvent adapter: tokens and instance boundaries reach the registry, and mismatch notices are shown. */
module FeatureHandshake {
  import opened Words
  import opened FeatureRegistry

  const MAXIMUM_NOTICES := 32

  datatype Notice = Notice(pending: bool, featureId: Id, serverRelease: Release, clientRelease: Release, deliveryThreadId: nat)

  const NO_NOTICE := Notice(false, 0, 0, 0, 0)

  // What an event is, once its function's name is resolved.
  datatype Kind =
    | NoFunction                                 // no object or no function
    | Cap(token: Int32, accepts: bool)           // ClientCapBandwidth with its parameter
    | Boundary                                   // ClientTravel, PreClientTravel or ReceivedPlayer
    | Other

  /**
   One call of ProcessEvent: on which thread, whether the chat manager exists when it is asked for, what
   events are dispatched while each message is shown, and what events the original dispatches.
   */
  datatype Dispatch = Dispatch(kind: Kind, thread: nat, chatManager: bool, shows: Shows, original: Dispatches)
  datatype Dispatches = Done | Then(first: Dispatch, rest: Dispatches)
  datatype Shows = NoMore | Show(during: Dispatches, others: Shows)

  // The notice in an entry of the table, if it is pending.
  ghost function IfPending(x: Notice): multiset<Notice> { if x.pending then multiset{x} else multiset{} }

  // The pending notices.
  ghost function Pending(ns: seq<Notice>): multiset<Notice>
    decreases |ns|
  {
    if ns == [] then multiset{} else Pending(ns[..|ns| - 1]) + IfPending(ns[|ns| - 1])
  }

  lemma {:induction false} Exchange(a: multiset<Notice>, b: multiset<Notice>, c: multiset<Notice>, d: multiset<Notice>, e: multiset<Notice>)
    requires a + b == c + d
    ensures (a + e) + b == (c + e) + d
    ensures a + e + b == c + e + d
  {
    assert a + e + b == a + b + e && c + e + d == c + d + e;
  }

  lemma {:induction false} PendingUpdate(ns: seq<Notice>, i: nat, x: Notice)
    requires i < |ns|
    ensures Pending(ns[i := x]) + IfPending(ns[i]) == Pending(ns) + IfPending(x)
    decreases |ns|
  {
    hide IfPending;
    var n := |ns| - 1;
    if i < n {
      PendingUpdate(ns[..n], i, x);
      assert ns[i := x][..n] == ns[..n][i := x];
      Exchange(Pending(ns[..n][i := x]), IfPending(ns[i]), Pending(ns[..n]), IfPending(x), IfPending(ns[n]));
    } else {
      assert ns[i := x][..n] == ns[..n];
      Exchange(Pending(ns[..n]), multiset{}, Pending(ns[..n]), multiset{}, IfPending(x) + IfPending(ns[n]));
    }
  }

  // The features with a pending notice, and those that are registered.
  ghost function PendingIds(ns: seq<Notice>): set<Id> { set i | 0 <= i < |ns| && ns[i].pending :: ns[i].featureId }

  ghost function RegisteredIds(es: seq<Entry>, n: nat): set<Id>
    requires n <= |es|
  {
    set i | 0 <= i < n :: es[i].registration.featureId
  }

  lemma {:induction false} FewRegistered(es: seq<Entry>, n: nat)
    requires n <= |es|
    ensures |RegisteredIds(es, n)| <= n
    decreases n
  {
    if n > 0 {
      FewRegistered(es, n - 1);
      assert RegisteredIds(es, n) == RegisteredIds(es, n - 1) + {es[n - 1].registration.featureId};
    } else {
      assert RegisteredIds(es, 0) == {};
    }
  }

  lemma {:induction false} ManyPending(ns: seq<Notice>)
    requires forall i :: 0 <= i < |ns| ==> ns[i].pending
    requires forall i, j :: 0 <= i < j < |ns| ==> ns[i].featureId != ns[j].featureId
    ensures |PendingIds(ns)| == |ns|
    decreases |ns|
  {
    if ns != [] {
      var n := |ns| - 1;
      ManyPending(ns[..n]);
      assert PendingIds(ns) == PendingIds(ns[..n]) + {ns[n].featureId};
    }
  }

  lemma {:induction false} Fewer(a: set<Id>, b: set<Id>)
    requires a <= b
    ensures |a| <= |b|
    decreases |a|
  {
    if a != {} {
      var x :| x in a;
      Fewer(a - {x}, b - {x});
    }
  }

  // At most one notice a feature, and only for registered features.
  ghost predicate NoticesOk(ns: seq<Notice>, h: seq<Event>)
  {
    && |ns| == MAXIMUM_NOTICES
    && (forall i :: 0 <= i < |ns| && ns[i].pending ==> Known(h, ns[i].featureId).Some?)
    && (forall i, j :: 0 <= i < j < |ns| && ns[i].pending && ns[j].pending ==> ns[i].featureId != ns[j].featureId)
  }

  /** The table cannot be full of other features' notices when a registered feature needs one. */
  lemma {:induction false} AlwaysRoom(ns: seq<Notice>, es: seq<Entry>, n: nat, h: seq<Event>, calls: seq<Call>, id: Id)
    requires NoticesOk(ns, h) && Consistent(es, n, h, calls) && Known(h, id).Some?
    ensures exists i :: 0 <= i < |ns| && (!ns[i].pending || ns[i].featureId == id)
  {
    hide EntryOk;
    if forall i :: 0 <= i < |ns| ==> ns[i].pending && ns[i].featureId != id {
      ManyPending(ns);
      FewRegistered(es, n);
      forall x | x in PendingIds(ns) + {id}
        ensures x in RegisteredIds(es, n)
      {
        assert Known(h, x).Some?;
      }
      Fewer(PendingIds(ns) + {id}, RegisteredIds(es, n));
    }
  }

  // How often the registry has been reset.
  ghost function Resets(h: seq<Event>): nat
    decreases |h|
  {
    if h == [] then 0 else Resets(h[..|h| - 1]) + (if h[|h| - 1].WasReset? then 1 else 0)
  }

  lemma {:induction false} ResetsMore(h: seq<Event>, e: Event)
    ensures Resets(h + [e]) == Resets(h) + (if e.WasReset? then 1 else 0)
  {
    assert (h + [e])[..|h|] == h;
  }

  lemma {:induction false} ResetsGrow(h: seq<Event>, h': seq<Event>)
    requires h <= h'
    ensures Resets(h) <= Resets(h')
    decreases |h'|
  {
    if |h| < |h'| {
      ResetsGrow(h, h'[..|h'| - 1]);
    } else {
      assert h == h';
    }
  }

  // A message shown: the notice, the thread it was shown on, and how many resets there had been when the notice was
  // taken off the table, and when it was shown.
  datatype Shown = Shown(notice: Notice, thread: nat, taken: nat, shown: nat)

  // The notice is one of an earlier instance.
  predicate Stale(x: Shown) { x.taken < x.shown }

  // Between resets no feature is shown twice, but for stale notices.
  ghost predicate FreshOnce(log: seq<Shown>)
  {
    forall i, j :: 0 <= i < j < |log| && !Stale(log[i]) && !Stale(log[j]) && log[i].shown == log[j].shown ==>
      log[i].notice.featureId != log[j].notice.featureId
  }

  // The features with a notice queued since the last reset: it is pending, held by a delivery or shown.
  ghost predicate Sorted(log: seq<Shown>, resets: nat, ids: seq<Id>, held: set<Id>, ns: seq<Notice>)
  {
    && (forall id :: id in held ==> id in ids)
    && (forall i :: 0 <= i < |ns| && ns[i].pending ==> ns[i].featureId in ids && ns[i].featureId !in held)
    && (forall k :: 0 <= k < |log| ==> log[k].taken <= log[k].shown <= resets)
    && (forall k :: 0 <= k < |log| && log[k].shown == resets && !Stale(log[k]) ==>
          log[k].notice.featureId in ids && log[k].notice.featureId !in held + PendingIds(ns))
  }

  ghost function Ids(ns: seq<Notice>): set<Id> { set k | 0 <= k < |ns| :: ns[k].featureId }

  ghost predicate Distinct(ns: seq<Notice>) { forall j, k :: 0 <= j < k < |ns| ==> ns[j].featureId != ns[k].featureId }

  // A notice is queued in entry i.
  lemma {:induction false} SortedQueue(log: seq<Shown>, resets: nat, ids: seq<Id>, held: set<Id>, ns: seq<Notice>, i: nat, x: Notice)
    requires Sorted(log, resets, ids, held, ns) && i < |ns| && !ns[i].pending && x.pending && x.featureId !in ids
    ensures Sorted(log, resets, ids + [x.featureId], held, ns[i := x])
  {
    forall k | 0 <= k < |log| && log[k].shown == resets && !Stale(log[k])
      ensures log[k].notice.featureId !in PendingIds(ns[i := x])
    {
    }
  }

  // The notice in entry i is taken.
  lemma {:induction false} SortedTake(log: seq<Shown>, resets: nat, ids: seq<Id>, held: set<Id>, ns: seq<Notice>, i: nat, h: seq<Event>)
    requires Sorted(log, resets, ids, held, ns) && NoticesOk(ns, h) && i < |ns| && ns[i].pending
    ensures Sorted(log, resets, ids, held + {ns[i].featureId}, ns[i := NO_NOTICE]) && NoticesOk(ns[i := NO_NOTICE], h)
    ensures ns[i].featureId !in held
  {
    hide Known;
    assert ns[i].featureId in PendingIds(ns);
    assert PendingIds(ns[i := NO_NOTICE]) <= PendingIds(ns);
  }

  // A notice is shown: it was held, or it is stale.
  lemma {:induction false} SortedShow(log: seq<Shown>, resets: nat, ids: seq<Id>, held: set<Id>, ns: seq<Notice>, x: Shown)
    requires Sorted(log, resets, ids, held, ns) && FreshOnce(log) && x.taken <= x.shown == resets
    requires !Stale(x) ==> x.notice.featureId in held
    ensures FreshOnce(log + [x])
    ensures Sorted(log + [x], resets, ids, if Stale(x) then held else held - {x.notice.featureId}, ns)
  {
    var all := log + [x];
    forall k | 0 <= k < |all|
      ensures all[k] == if k < |log| then log[k] else x
    {
    }
    assert x.notice.featureId in held ==> x.notice.featureId !in PendingIds(ns);
  }

  lemma {:induction false} PendingAreQueued(log: seq<Shown>, resets: nat, ids: seq<Id>, held: set<Id>, ns: seq<Notice>)
    requires Sorted(log, resets, ids, held, ns)
    ensures forall id :: id in PendingIds(ns) ==> id in ids
  {
  }

  lemma {:induction false} SortedReset(log: seq<Shown>, resets: nat, ids: seq<Id>, held: set<Id>, ns: seq<Notice>, ns': seq<Notice>)
    requires Sorted(log, resets, ids, held, ns) && forall i :: 0 <= i < |ns'| ==> !ns'[i].pending
    ensures Sorted(log, resets + 1, [], {}, ns')
  {
  }

  lemma {:induction false} SortedCleared(log: seq<Shown>, resets: nat, ids: seq<Id>, held: set<Id>, ns: seq<Notice>, ns': seq<Notice>)
    requires Sorted(log, resets, ids, held, ns) && forall i :: 0 <= i < |ns'| ==> !ns'[i].pending
    ensures Sorted(log, resets, ids, held, ns')
  {
  }

  ghost function ShownNotices(log: seq<Shown>): multiset<Notice>
    decreases |log|
  {
    if log == [] then multiset{} else ShownNotices(log[..|log| - 1]) + multiset{log[|log| - 1].notice}
  }

  // Every notice queued is either pending, being delivered, shown or dropped, and only once.
  ghost predicate Balanced(queued: multiset<Notice>, log: seq<Shown>, dropped: multiset<Notice>, inFlight: multiset<Notice>, ns: seq<Notice>)
  {
    queued == ShownNotices(log) + dropped + inFlight + Pending(ns)
  }

  lemma {:induction false} BalancedIsBound(queued: multiset<Notice>, log: seq<Shown>, dropped: multiset<Notice>, inFlight: multiset<Notice>,
                                           ns: seq<Notice>)
    requires Balanced(queued, log, dropped, inFlight, ns)
    ensures ShownNotices(log) + dropped + inFlight <= queued
  {
    hide ShownNotices, Pending;
  }

  // A notice queued in entry i.
  lemma {:induction false} BalancedQueue(queued: multiset<Notice>, log: seq<Shown>, dropped: multiset<Notice>, inFlight: multiset<Notice>,
                                         ns: seq<Notice>, i: nat, x: Notice)
    requires Balanced(queued, log, dropped, inFlight, ns) && i < |ns| && !ns[i].pending && x.pending
    ensures Balanced(queued + multiset{x}, log, dropped, inFlight, ns[i := x])
  {
    hide ShownNotices, Pending;
    PendingUpdate(ns, i, x);
    var rest := ShownNotices(log) + dropped + inFlight;
    assert Pending(ns[i := x]) == Pending(ns) + multiset{x};
    assert (rest + Pending(ns)) + multiset{x} == rest + (Pending(ns) + multiset{x});
  }

  // What was pending is dropped.
  lemma {:induction false} BalancedDrop(queued: multiset<Notice>, log: seq<Shown>, dropped: multiset<Notice>, inFlight: multiset<Notice>,
                                        ns: seq<Notice>, ns': seq<Notice>)
    requires Balanced(queued, log, dropped, inFlight, ns) && forall i :: 0 <= i < |ns'| ==> !ns'[i].pending
    ensures Balanced(queued, log, dropped + Pending(ns), inFlight, ns')
  {
    hide ShownNotices, Pending;
    NonePending(ns');
    var a, p := ShownNotices(log), Pending(ns);
    assert a + dropped + inFlight + p == a + (dropped + p) + inFlight + multiset{};
  }

  // The notice in entry i is taken off the table.
  lemma {:induction false} BalancedTake(queued: multiset<Notice>, log: seq<Shown>, dropped: multiset<Notice>, inFlight: multiset<Notice>,
                                        ns: seq<Notice>, i: nat)
    requires Balanced(queued, log, dropped, inFlight, ns) && i < |ns| && ns[i].pending
    ensures Balanced(queued, log, dropped, inFlight + multiset{ns[i]}, ns[i := NO_NOTICE])
  {
    hide ShownNotices, Pending;
    PendingUpdate(ns, i, NO_NOTICE);
    var a, p := ShownNotices(log) + dropped, Pending(ns[i := NO_NOTICE]);
    assert Pending(ns) == p + multiset{ns[i]};
    assert a + inFlight + (p + multiset{ns[i]}) == a + (inFlight + multiset{ns[i]}) + p;
  }

  // A notice in delivery is shown.
  lemma {:induction false} BalancedShow(queued: multiset<Notice>, log: seq<Shown>, dropped: multiset<Notice>, inFlight: multiset<Notice>,
                                        ns: seq<Notice>, s: Shown)
    requires Balanced(queued, log, dropped, inFlight, ns) && s.notice in inFlight
    ensures Balanced(queued, log + [s], dropped, inFlight - multiset{s.notice}, ns)
  {
    hide Pending;
    var x := s.notice;
    var rest := inFlight - multiset{x};
    var log' := log + [s];
    assert log'[..|log|] == log;
    assert inFlight == rest + multiset{x};
    var a, p := ShownNotices(log), Pending(ns);
    assert a + dropped + (rest + multiset{x}) + p == (a + multiset{x}) + dropped + rest + p;
  }

  predicate IsShow(s: Shown, x: Notice, thread: nat) { s.notice == x && s.thread == thread }

  // The notices, taken after this many resets, are shown on the thread in this order, at these places of the log, the
  // first at from_ or later.
  ghost predicate ShownAt(log: seq<Shown>, from_: nat, ready: seq<Notice>, thread: nat, taken: nat, at: seq<nat>)
  {
    && |at| == |ready|
    && (forall j, k :: 0 <= j < k < |at| ==> at[j] < at[k])
    && (forall k :: 0 <= k < |at| ==> from_ <= at[k] < |log| && IsShow(log[at[k]], ready[k], thread) && log[at[k]].taken == taken)
  }

  ghost predicate ShownSince(log: seq<Shown>, from_: nat, x: Notice, thread: nat)
  {
    exists k :: from_ <= k < |log| && IsShow(log[k], x, thread)
  }

  // What was pending for the thread has been shown on it.
  ghost predicate AllShown(ns: seq<Notice>, thread: nat, log: seq<Shown>, from_: nat)
  {
    forall i :: 0 <= i < |ns| && ns[i].pending && ns[i].deliveryThreadId == thread ==> ShownSince(log, from_, ns[i], thread)
  }

  lemma {:induction false} ReadyAllShown(ns: seq<Notice>, thread: nat, log: seq<Shown>, from_: nat, taken: nat, at: seq<nat>)
    requires ShownAt(log, from_, Ready(ns, thread), thread, taken, at)
    ensures AllShown(ns, thread, log, from_)
  {
    hide Ready;
    forall i | 0 <= i < |ns| && ns[i].pending && ns[i].deliveryThreadId == thread
      ensures ShownSince(log, from_, ns[i], thread)
    {
      var k := PlaceInReady(ns, thread, i);
      assert IsShow(log[at[k]], ns[i], thread);
    }
  }

  lemma {:induction false} NothingShown(log: seq<Shown>, thread: nat, taken: nat)
    ensures ShownAt(log, |log|, [], thread, taken, [])
  {
  }

  lemma {:induction false} OneMoreShown(log: seq<Shown>, from_: nat, ready: seq<Notice>, index: nat, thread: nat, taken: nat,
                                         at: seq<nat>, s: Shown)
    requires index < |ready| && from_ <= |log| && ShownAt(log, from_, ready[..index], thread, taken, at)
    requires IsShow(s, ready[index], thread) && s.taken == taken
    ensures ShownAt(log + [s], from_, ready[..index + 1], thread, taken, at + [|log|])
  {
  }

  lemma {:induction false} LaterShown(log: seq<Shown>, log': seq<Shown>, from_: nat, ready: seq<Notice>, thread: nat, taken: nat,
                                        at: seq<nat>)
    requires ShownAt(log, from_, ready, thread, taken, at) && log <= log'
    ensures ShownAt(log', from_, ready, thread, taken, at)
    ensures forall k :: 0 <= k < |at| ==> at[k] < |log| && log'[at[k]] == log[at[k]]
  {
    forall k | 0 <= k < |at|
      ensures from_ <= at[k] < |log'| && log'[at[k]] == log[at[k]]
    {
      assert log'[at[k]] == log[at[k]];
    }
  }

  // What a piece of dispatching does to the features held: nothing, unless there was a reset, which forgets them.
  predicate HeldKept(resets: nat, resets': nat, held: set<Id>, held': set<Id>)
  {
    resets <= resets' && held' == if resets == resets' then held else {}
  }

  lemma {:induction false} HeldNow(resets: nat, held: set<Id>)
    ensures HeldKept(resets, resets, held, held)
  {
  }

  lemma {:induction false} HeldOnly(resets: nat, resets': nat, held: set<Id>, held': set<Id>)
    requires HeldKept(resets, resets', held, held')
    ensures resets <= resets' && (resets == resets' ==> held' == held)
  {
  }

  // While the first message is shown an instance boundary is dispatched.
  predicate BoundaryDuring(shows: Shows) { shows.Show? && shows.during.Then? && shows.during.first.kind.Boundary? }

  // Then all messages behind it are stale. The first never is.
  ghost predicate StaleBehindBoundary(log: seq<Shown>, at: seq<nat>, shows: Shows)
  {
    forall k :: 0 <= k < |at| ==> at[k] < |log| && (k == 0 ==> !Stale(log[at[k]])) && (k > 0 && BoundaryDuring(shows) ==> Stale(log[at[k]]))
  }

  lemma {:induction false} NothingStale(log: seq<Shown>, shows: Shows)
    ensures StaleBehindBoundary(log, [], shows)
  {
  }

  lemma {:induction false} StaleMore(log: seq<Shown>, at: seq<nat>, shows: Shows, s: Shown)
    requires StaleBehindBoundary(log, at, shows) && s.taken <= s.shown
    requires if at == [] then s.taken == s.shown else BoundaryDuring(shows) ==> s.taken < s.shown
    ensures StaleBehindBoundary(log + [s], at + [|log|], shows)
  {
  }

  lemma {:induction false} BoundaryResets(h: seq<Event>, h': seq<Event>, kind: Kind)
    requires kind.Boundary? && h + Heard(kind) <= h'
    ensures Resets(h) < Resets(h')
  {
    ResetsMore(h, WasReset);
    ResetsGrow(h + [WasReset], h');
  }

  lemma {:induction false} NoIds(outer: set<Id>)
    ensures Ids([]) == {} && Distinct([]) && outer + Ids([]) == outer && outer !! Ids([])
  {
  }

  lemma {:induction false} OneMoreId(ns: seq<Notice>, x: Notice)
    requires Distinct(ns) && x.featureId !in Ids(ns)
    ensures Distinct(ns + [x]) && Ids(ns + [x]) == Ids(ns) + {x.featureId}
  {
    var all := ns + [x];
    assert all[|ns|] == x && forall k :: 0 <= k < |ns| ==> all[k] == ns[k];
  }

  // What a delivery that has taken these notices holds more than before.
  ghost predicate Took(was: set<Id>, before: multiset<Notice>, ready: seq<Notice>, held: set<Id>, inFlight: multiset<Notice>)
  {
    held == was + Ids(ready) && was !! Ids(ready) && Distinct(ready) && inFlight == before + multiset(ready)
  }

  lemma {:induction false} TookNothing(was: set<Id>, before: multiset<Notice>)
    ensures Took(was, before, [], was, before)
  {
    NoIds(was);
  }

  lemma {:induction false} TookOne(was: set<Id>, before: multiset<Notice>, ready: seq<Notice>, held: set<Id>, inFlight: multiset<Notice>, x: Notice)
    requires Took(was, before, ready, held, inFlight) && x.featureId !in held
    ensures Took(was, before, ready + [x], held + {x.featureId}, inFlight + multiset{x})
  {
    hide Ids, Distinct;
    OneMoreId(ready, x);
  }

  // The table after the thread's notices among the first n have been taken off it.
  predicate TakenOff(ns: seq<Notice>, thread: nat, n: nat, now: seq<Notice>)
  {
    && |now| == |ns|
    && forall i :: 0 <= i < |ns| ==> now[i] == if i < n && ns[i].pending && ns[i].deliveryThreadId == thread then NO_NOTICE else ns[i]
  }

  lemma {:induction false} NothingTaken(ns: seq<Notice>, thread: nat)
    ensures TakenOff(ns, thread, 0, ns)
  {
  }

  lemma {:induction false} TakenMore(ns: seq<Notice>, thread: nat, n: nat, now: seq<Notice>)
    requires n < |ns| && TakenOff(ns, thread, n, now)
    ensures now[n] == ns[n]
    ensures TakenOff(ns, thread, n + 1, if ns[n].pending && ns[n].deliveryThreadId == thread then now[n := NO_NOTICE] else now)
  {
  }

  lemma {:induction false} LaterStale(log: seq<Shown>, log': seq<Shown>, at: seq<nat>, shows: Shows)
    requires StaleBehindBoundary(log, at, shows) && log <= log'
    ensures StaleBehindBoundary(log', at, shows)
  {
  }

  // A delivery has shown one of the notices it holds.
  lemma {:induction false} HeldNext(taken: nat, now: nat, next: nat, ready: seq<Notice>, index: nat, outer: set<Id>, held: set<Id>, held': set<Id>)
    requires index < |ready| && Distinct(ready) && outer !! Ids(ready)
    requires HeldKept(taken, now, outer + Ids(ready[index..]), held)
    requires HeldKept(now, next, if taken == now then held - {ready[index].featureId} else held, held')
    ensures now <= next && HeldKept(taken, next, outer + Ids(ready[index + 1..]), held')
  {
    hide Ids, Distinct;
    NextHeld(ready, index, outer);
  }

  lemma {:induction false} NextHeld(ready: seq<Notice>, index: nat, outer: set<Id>)
    requires index < |ready| && Distinct(ready) && outer !! Ids(ready)
    ensures ready[index].featureId in Ids(ready[index..])
    ensures outer + Ids(ready[index..]) - {ready[index].featureId} == outer + Ids(ready[index + 1..])
  {
    var rest := ready[index..];
    assert rest == [ready[index]] + ready[index + 1..] && rest[0] == ready[index];
    assert forall k :: 0 <= k < |rest| ==> rest[k] == ready[index + k];
  }

  // The next notice of a delivery, which holds it.
  lemma {:induction false} NextToShow(ready: seq<Notice>, index: nat, outer: multiset<Notice>)
    requires index < |ready|
    ensures ready[index] in outer + multiset(ready[index..])
    ensures outer + multiset(ready[index..]) - multiset{ready[index]} == outer + multiset(ready[index + 1..])
  {
    assert ready[index..] == [ready[index]] + ready[index + 1..];
    assert multiset(ready[index..]) == multiset{ready[index]} + multiset(ready[index + 1..]);
  }

  lemma {:induction false} PlaceInReady(ns: seq<Notice>, thread: nat, i: nat) returns (k: nat)
    requires i < |ns| && ns[i].pending && ns[i].deliveryThreadId == thread
    ensures k < |Ready(ns, thread)| && Ready(ns, thread)[k] == ns[i]
    decreases |ns|
  {
    var n := |ns| - 1;
    if i < n {
      k := PlaceInReady(ns[..n], thread, i);
    } else {
      k := |Ready(ns[..n], thread)|;
    }
  }

  // The event is a token that a notice is due for, and that notice.
  ghost predicate Notifies(h: seq<Event>, kind: Kind)
    ensures Notifies(h, kind) ==> kind.Cap?
  {
    kind.Cap? && OutcomeOf(h, kind.token, kind.accepts).shouldNotifyUser
  }

  ghost function NoticeOf(h: seq<Event>, kind: Kind, thread: nat): Notice
    requires kind.Cap?
  {
    var o := OutcomeOf(h, kind.token, kind.accepts);
    Notice(true, o.featureId, o.serverRelease, o.clientRelease, thread)
  }

  // What the registry is told of the event.
  ghost function Heard(kind: Kind): seq<Event>
  {
    if kind.Boundary? then [WasReset]
    else if kind.Cap? && IsToken(kind.token) then [Received(kind.token, kind.accepts)]
    else []
  }

  // If the chat manager exists and no boundary intervenes, what was pending for the event's thread has been
  // shown, and the notice that is due for the event itself.
  ghost predicate Announced(h: seq<Event>, e: Dispatch, ns: seq<Notice>, log: seq<Shown>, from_: nat)
  {
    e.chatManager && !e.kind.Boundary? ==>
      && AllShown(ns, e.thread, log, from_)
      && (Notifies(h, e.kind) ==> ShownSince(log, from_, NoticeOf(h, e.kind, e.thread), e.thread))
  }

  // How many messages are due then: the notices pending for the thread, and the one that the event asks for.
  ghost function MessagesDue(h: seq<Event>, e: Dispatch, ns: seq<Notice>): nat
  {
    if e.kind.Boundary? then 0 else |Ready(ns, e.thread)| + (if Notifies(h, e.kind) then 1 else 0)
  }

  // What an event does if no others are dispatched while messages are shown: no message is shown without the chat manager,
  // and with it as many as are due; the registry hears of it once.
  ghost predicate Exactly(e: Dispatch, h: seq<Event>, ns: seq<Notice>, log: seq<Shown>, h': seq<Event>, log': seq<Shown>)
  {
    && (!e.chatManager ==> log' == log)
    && (e.shows.NoMore? && e.chatManager ==> |log'| == |log| + MessagesDue(h, e, ns))
    && (e.shows.NoMore? || !e.chatManager ==> h' == h + Heard(e.kind))
  }

  lemma {:induction false} HowManyReady(h: seq<Event>, e: Dispatch, ns: seq<Notice>, ns': seq<Notice>)
    requires e.kind.Boundary? ==> forall i :: 0 <= i < |ns'| ==> !ns'[i].pending
    requires e.kind.Boundary? || if Notifies(h, e.kind) then Inserted(ns, ns', NoticeOf(h, e.kind, e.thread)) else ns' == ns
    ensures |Ready(ns', e.thread)| == MessagesDue(h, e, ns)
  {
    hide OutcomeOf;
    if e.kind.Boundary? {
      NothingReady(ns', e.thread);
    } else if Notifies(h, e.kind) {
      var x := NoticeOf(h, e.kind, e.thread);
      var i :| 0 <= i < |ns| && !ns[i].pending && ns' == ns[i := x];
      ReadyInserted(ns, i, x, e.thread);
    }
  }

  lemma {:induction false} ReadyInserted(ns: seq<Notice>, i: nat, x: Notice, thread: nat)
    requires i < |ns| && !ns[i].pending && x.pending && x.deliveryThreadId == thread
    ensures |Ready(ns[i := x], thread)| == |Ready(ns, thread)| + 1
    decreases |ns|
  {
    var n := |ns| - 1;
    if i < n {
      assert ns[i := x][..n] == ns[..n][i := x];
      ReadyInserted(ns[..n], i, x, thread);
    } else {
      assert ns[i := x][..n] == ns[..n];
    }
  }

  lemma {:induction false} StillAnnounced(h: seq<Event>, e: Dispatch, ns: seq<Notice>, log: seq<Shown>, log': seq<Shown>, from_: nat)
    requires Announced(h, e, ns, log, from_) && log <= log'
    ensures Announced(h, e, ns, log', from_)
  {
    hide OutcomeOf;
    forall x | ShownSince(log, from_, x, e.thread)
      ensures ShownSince(log', from_, x, e.thread)
    {
      var k :| from_ <= k < |log| && IsShow(log[k], x, e.thread);
      assert log'[k] == log[k];
    }
  }

  // A notice was put in an entry where none was pending.
  ghost predicate Inserted(ns: seq<Notice>, ns': seq<Notice>, x: Notice)
  {
    exists i :: 0 <= i < |ns| && !ns[i].pending && ns' == ns[i := x]
  }

  ghost predicate OnTheirThreads(log: seq<Shown>)
  {
    forall k :: 0 <= k < |log| ==> log[k].notice.deliveryThreadId == log[k].thread
  }

  // Each feature at most once, and only features whose mismatch has been noticed.
  ghost predicate OnceEach(ids: seq<Id>, h: seq<Event>)
  {
    && (forall i, j :: 0 <= i < j < |ids| ==> ids[i] != ids[j])
    && (forall i :: 0 <= i < |ids| ==> NoticedAfter(h, ids[i]))
  }

  // Nothing that happens to the registry but a reset takes these back.
  lemma {:induction false} StillNoticed(ns: seq<Notice>, ids: seq<Id>, h: seq<Event>, e: Event)
    requires NoticesOk(ns, h) && OnceEach(ids, h) && e.Received?
    ensures NoticesOk(ns, h + [e]) && OnceEach(ids, h + [e])
  {
    forall id: Id
      ensures Known(h, id).Some? ==> Known(h + [e], id).Some?
      ensures NoticedAfter(h, id) ==> NoticedAfter(h + [e], id)
    {
      OneMore(h, e, id);
      if NoticedAfter(h, id) {
        NoticedIsKnown(h, id);
      }
    }
  }

  lemma {:induction false} NoticedIsKnown(h: seq<Event>, id: Id)
    requires NoticedAfter(h, id)
    ensures Known(h, id).Some?
    decreases |h|
  {
    var before := h[..|h| - 1];
    OneMore(before, h[|h| - 1], id);
    assert h == before + [h[|h| - 1]];
  }

  lemma {:induction false} NonePending(ns: seq<Notice>)
    requires forall i :: 0 <= i < |ns| ==> !ns[i].pending
    ensures Pending(ns) == multiset{}
    decreases |ns|
  {
    if ns != [] {
      NonePending(ns[..|ns| - 1]);
    }
  }

  // The pending notices of a thread, in table order.
  function Ready(ns: seq<Notice>, thread: nat): seq<Notice>
    decreases |ns|
  {
    if ns == [] then []
    else
      var x := ns[|ns| - 1];
      Ready(ns[..|ns| - 1], thread) + (if x.pending && x.deliveryThreadId == thread then [x] else [])
  }

  lemma {:induction false} ReadyMore(ns: seq<Notice>, i: nat, thread: nat)
    requires i < |ns|
    ensures Ready(ns[..i + 1], thread) ==
      Ready(ns[..i], thread) + (if ns[i].pending && ns[i].deliveryThreadId == thread then [ns[i]] else [])
  {
    assert ns[..i + 1][..i] == ns[..i];
  }

  lemma {:induction false} NothingReady(ns: seq<Notice>, thread: nat)
    requires forall i :: 0 <= i < |ns| ==> !(ns[i].pending && ns[i].deliveryThreadId == thread)
    ensures Ready(ns, thread) == []
    decreases |ns|
  {
    if ns != [] {
      NothingReady(ns[..|ns| - 1], thread);
    }
  }

  class FeatureHandshakePatch {
    const registry: FeatureRegistry
    const notices: array<Notice>
    ghost var queued: multiset<Notice>
    ghost var dropped: multiset<Notice>  // cleared at an instance boundary before they were shown
    ghost var inFlight: multiset<Notice> // taken off the table by a delivery that has not shown them yet
    ghost var log: seq<Shown>
    ghost var held: set<Id>              // the features of the notices taken since the last reset and not shown yet
    ghost var queuedSince: seq<Id>       // the features of the notices queued since the last reset

    ghost predicate Valid()
      reads this, notices, registry, registry.entries
    {
      && registry.Valid() && notices.Length == MAXIMUM_NOTICES
      && NoticesOk(notices[..], registry.history)
      && OnceEach(queuedSince, registry.history)
      && Sorted(log, Resets(registry.history), queuedSince, held, notices[..]) && FreshOnce(log)
      && Balanced(queued, log, dropped, inFlight, notices[..])
      && OnTheirThreads(log)
    }

    constructor (registry: FeatureRegistry)
      requires registry.Valid()
      ensures Valid() && this.registry == registry && fresh(notices) && queued == multiset{} && log == []
      ensures notices.Length == 32
    {
      this.registry := registry;
      notices := new Notice[MAXIMUM_NOTICES](_ => NO_NOTICE);
      queued, dropped, inFlight, log, held, queuedSince := multiset{}, multiset{}, multiset{}, [], {}, [];
      new;
      NonePending(notices[..]);
    }

    /** ClearPendingMismatchNotices, at an instance boundary. */
    method ClearPendingMismatchNotices()
      requires Valid()
      modifies this`dropped, notices
      ensures Valid() && forall i :: 0 <= i < notices.Length ==> notices[i] == NO_NOTICE
    {
      hide Balanced, Consistent, EntryOk, OnTheirThreads, Known, Sorted, FreshOnce;
      ghost var ns := notices[..];
      var i := 0;
      while i < notices.Length
        invariant i <= notices.Length
        invariant forall j :: 0 <= j < i ==> notices[j] == NO_NOTICE
        invariant forall j :: i <= j < notices.Length ==> notices[j] == old(notices[j])
        invariant registry.Valid()
        modifies notices
      {
        notices[i] := NO_NOTICE;
        i := i + 1;
      }
      BalancedDrop(queued, log, dropped, inFlight, ns, notices[..]);
      SortedCleared(log, Resets(registry.history), queuedSince, held, ns, notices[..]);
      dropped := dropped + Pending(ns);
    }

    /**
     QueueMismatchNotice, for a feature whose mismatch has been noticed. There is always room, so that it
     never reports a full table.
     */
    method QueueMismatchNotice(outcome: TokenOutcome, threadId: nat) returns (ok: bool)
      requires Valid() && NoticedAfter(registry.history, outcome.featureId)
      requires outcome.featureId in queuedSince ==> outcome.featureId in PendingIds(notices[..])
      modifies this`queued, this`queuedSince, notices
      ensures Valid() && ok
      ensures old(outcome.featureId in PendingIds(notices[..])) ==>
        queued == old(queued) && queuedSince == old(queuedSince) && notices[..] == old(notices[..])
      ensures !old(outcome.featureId in PendingIds(notices[..])) ==>
        && queued == old(queued) + multiset{Notice(true, outcome.featureId, outcome.serverRelease, outcome.clientRelease, threadId)}
        && queuedSince == old(queuedSince) + [outcome.featureId]
        && Inserted(old(notices[..]), notices[..], Notice(true, outcome.featureId, outcome.serverRelease, outcome.clientRelease, threadId))
    {
      hide Consistent, EntryOk, Balanced, Sorted, FreshOnce;
      ghost var ns := notices[..];
      for i := 0 to notices.Length
        invariant forall j :: 0 <= j < i ==> !(notices[j].pending && notices[j].featureId == outcome.featureId)
        modifies {}
      {
        if notices[i].pending && notices[i].featureId == outcome.featureId {
          assert ns[i].featureId in PendingIds(ns);
          return true;
        }
      }
      NoticedIsKnown(registry.history, outcome.featureId);
      AlwaysRoom(ns, registry.entries[..], registry.count, registry.history, registry.calls, outcome.featureId);
      var i := 0;
      while i < notices.Length && notices[i].pending
        invariant i <= notices.Length && forall j :: 0 <= j < i ==> notices[j].pending
        modifies {}
      {
        i := i + 1;
      }
      if i == notices.Length {
        return false;
      }
      var notice := Notice(true, outcome.featureId, outcome.serverRelease, outcome.clientRelease, threadId);
      BalancedQueue(queued, log, dropped, inFlight, ns, i, notice);
      SortedQueue(log, Resets(registry.history), queuedSince, held, ns, i, notice);
      notices[i] := notice;
      assert notices[..] == ns[i := notice];
      queued := queued + multiset{notice};
      queuedSince := queuedSince + [outcome.featureId];
      ok := true;
    }

    // ProcessEvent's hook may touch all of this.
    ghost function Footprint(): set<object>
      reads this
    {
      {this, notices, registry, registry.entries}
    }

    /** The instance boundary: what is pending is dropped, and each feature may ask for a notice again. */
    method EnterInstance()
      requires Valid()
      modifies Footprint()
      ensures Valid() && queuedSince == [] && held == {} && queued == old(queued) && inFlight == old(inFlight) && log == old(log)
      ensures registry.history == old(registry.history) + [WasReset]
      ensures forall i :: 0 <= i < notices.Length ==> !notices[i].pending
    {
      hide Balanced, Consistent, Known, NoticedAfter, Sorted, FreshOnce, Resets;
      ClearPendingMismatchNotices();
      ghost var h := registry.history;
      registry.Reset();
      ResetsMore(h, WasReset);
      SortedReset(log, Resets(h), queuedSince, held, notices[..], notices[..]);
      queuedSince, held := [], {};
    }

    // Takes the thread's notices off the table, before any of them is shown.
    method TakeReady(thread: nat) returns (ready: seq<Notice>)
      requires Valid()
      modifies this`inFlight, this`held, notices
      ensures Valid() && ready == Ready(old(notices[..]), thread)
      ensures Took(old(held), old(inFlight), ready, held, inFlight)
      ensures TakenOff(old(notices[..]), thread, notices.Length, notices[..])
    {
      hide Consistent, EntryOk, Ready, Pending, Balanced, OnTheirThreads, Known, NoticedAfter, Sorted, FreshOnce, Resets,
        NoticesOk, OnceEach, Took, TakenOff;
      ghost var ns := notices[..];
      TookNothing(held, inFlight);
      NothingReady([], thread);
      NothingTaken(ns, thread);
      ready := [];
      assert ns[..0] == [];
      var i := 0;
      while i < notices.Length
        invariant i <= notices.Length && ready == Ready(ns[..i], thread)
        invariant TakenOff(ns, thread, i, notices[..]) && Took(old(held), old(inFlight), ready, held, inFlight)
        invariant Balanced(queued, log, dropped, inFlight, notices[..])
        invariant Sorted(log, Resets(registry.history), queuedSince, held, notices[..]) && NoticesOk(notices[..], registry.history)
        modifies this`inFlight, this`held, notices
      {
        ReadyMore(ns, i, thread);
        TakenMore(ns, thread, i, notices[..]);
        assert notices[i] == notices[..][i];
        if notices[i].pending && notices[i].deliveryThreadId == thread {
          ghost var now := notices[..];
          BalancedTake(queued, log, dropped, inFlight, now, i);
          SortedTake(log, Resets(registry.history), queuedSince, held, now, i, registry.history);
          TookOne(old(held), old(inFlight), ready, held, inFlight, notices[i]);
          inFlight := inFlight + multiset{notices[i]};
          held := held + {notices[i].featureId};
          ready := ready + [notices[i]];
          notices[i] := NO_NOTICE;
          assert notices[..] == now[i := NO_NOTICE];
        }
        i := i + 1;
      }
      assert ns[..i] == ns;
    }

    // What any piece of dispatching keeps: notices are only queued, shown or dropped, and whatever outer
    // deliveries are holding is still theirs.
    twostate predicate Progress()
      reads this, registry
    {
      && old(queued) <= queued && old(log) <= log && inFlight == old(inFlight) && old(registry.history) <= registry.history
      && HeldKept(old(Resets(registry.history)), Resets(registry.history), old(held), held)
    }

    /**
     DeliverPendingMismatchNotices. If the chat manager exists, every notice that is ready is shown, in
     order, however the events dispatched while one is shown interfere. A notice is shown stale if and only if the
     registry has been reset since the delivery took it, as when the first message dispatches an instance boundary.
     */
    method DeliverPendingMismatchNotices(thread: nat, chatManager: bool, shows: Shows)
      requires Valid()
      modifies Footprint()
      ensures Valid() && Progress()
      ensures chatManager ==>
        exists at :: ShownAt(log, |old(log)|, Ready(old(notices[..]), thread), thread, old(Resets(registry.history)), at)
                     && StaleBehindBoundary(log, at, shows)
      ensures shows.NoMore? && chatManager ==> |log| == |old(log)| + |Ready(old(notices[..]), thread)|
      ensures !chatManager ==> log == old(log) && notices[..] == old(notices[..])
      ensures shows.NoMore? || !chatManager ==> registry.history == old(registry.history)
      decreases shows, 2
    {
      hide Consistent, EntryOk, Balanced, Ready, NoticesOk, OnceEach, ShownAt, Sorted, FreshOnce, Resets, OnTheirThreads, Ids;
      var hasPendingNotice := AnyReady(thread);
      if !hasPendingNotice {
        NothingReady(notices[..], thread);
        NothingShown(log, thread, Resets(registry.history));
        return;
      }
      if !chatManager {
        return;
      }
      var noticesToDeliver := TakeReady(thread);
      ReadyIsTheirs(old(notices[..]), thread);
      ShowAll(noticesToDeliver, thread, shows, old(inFlight), old(held), Resets(registry.history));
    }

    // Whether a notice is pending for the thread.
    method AnyReady(thread: nat) returns (r: bool)
      ensures r <==> exists i :: 0 <= i < notices.Length && notices[i].pending && notices[i].deliveryThreadId == thread
    {
      for i := 0 to notices.Length
        invariant forall j :: 0 <= j < i ==> !(notices[j].pending && notices[j].deliveryThreadId == thread)
      {
        if notices[i].pending && notices[i].deliveryThreadId == thread {
          return true;
        }
      }
      r := false;
    }

    // Shows one notice that a delivery holds; the chat helper may dispatch events meanwhile.
    method ShowOne(x: Notice, thread: nat, shows: Shows, ghost taken: nat) returns (rest: Shows)
      requires Valid() && x in inFlight && x.deliveryThreadId == thread
      requires taken <= Resets(registry.history) && (taken == Resets(registry.history) ==> x.featureId in held)
      modifies Footprint()
      ensures Valid() && inFlight == old(inFlight) - multiset{x}
      ensures old(queued) <= queued && old(registry.history) <= registry.history
      ensures old(log) + [Shown(x, thread, taken, old(Resets(registry.history)))] <= log
      ensures HeldKept(old(Resets(registry.history)), Resets(registry.history),
                       if taken == old(Resets(registry.history)) then old(held) - {x.featureId} else old(held), held)
      ensures rest == shows || rest < shows
      ensures shows.NoMore? ==>
        && rest == shows && log == old(log) + [Shown(x, thread, taken, old(Resets(registry.history)))]
        && registry.history == old(registry.history) && notices[..] == old(notices[..])
      ensures BoundaryDuring(shows) ==> old(Resets(registry.history)) < Resets(registry.history)
      decreases shows, 0
    {
      hide Consistent, EntryOk, Balanced, NoticesOk, OnceEach, Sorted, FreshOnce, Resets, Heard;
      ghost var s := Shown(x, thread, taken, Resets(registry.history));
      BalancedShow(queued, log, dropped, inFlight, notices[..], s);
      SortedShow(log, Resets(registry.history), queuedSince, held, notices[..], s);
      log := log + [s];
      inFlight := inFlight - multiset{x};
      if !Stale(s) {
        held := held - {x.featureId};
      }
      rest := shows;
      if rest.Show? {
        ghost var h := registry.history;
        CallAll(rest.during);
        if BoundaryDuring(rest) {
          BoundaryResets(h, registry.history, rest.during.first.kind);
        }
        rest := rest.others;
      }
    }

    // Shows what a delivery has taken, one after the other; the outer deliveries hold the rest.
    method ShowAll(noticesToDeliver: seq<Notice>, thread: nat, shows: Shows, ghost outer: multiset<Notice>, ghost outerHeld: set<Id>,
                   ghost taken: nat)
      requires Valid() && inFlight == outer + multiset(noticesToDeliver)
      requires taken == Resets(registry.history) && held == outerHeld + Ids(noticesToDeliver)
      requires outerHeld !! Ids(noticesToDeliver) && Distinct(noticesToDeliver)
      requires forall k :: 0 <= k < |noticesToDeliver| ==> noticesToDeliver[k].deliveryThreadId == thread
      modifies Footprint()
      ensures Valid() && inFlight == outer
      ensures old(queued) <= queued && old(log) <= log && old(registry.history) <= registry.history
      ensures HeldKept(taken, Resets(registry.history), outerHeld, held)
      ensures exists at :: ShownAt(log, |old(log)|, noticesToDeliver, thread, taken, at) && StaleBehindBoundary(log, at, shows)
      ensures shows.NoMore? ==> |log| == |old(log)| + |noticesToDeliver| && registry.history == old(registry.history)
      decreases shows, 1
    {
      hide Consistent, EntryOk, Balanced, NoticesOk, OnceEach, ShownAt, OnTheirThreads, Sorted, FreshOnce, Resets, Ids, Distinct,
        HeldKept, StaleBehindBoundary, BoundaryDuring, FeatureHandshakePatch.Valid;
      ghost var at: seq<nat> := [];
      NothingShown(log, thread, taken);
      NoIds(outerHeld);
      HeldNow(taken, held);
      NothingStale(log, shows);
      assert noticesToDeliver[..0] == [] && noticesToDeliver[0..] == noticesToDeliver;
      var index := 0;
      var rest := shows;
      while index < |noticesToDeliver|
        invariant index <= |noticesToDeliver| && Valid()
        invariant rest == shows || rest < shows
        invariant shows.NoMore? ==> rest == shows && |log| == |old(log)| + index && registry.history == old(registry.history)
        invariant inFlight == outer + multiset(noticesToDeliver[index..])
        invariant old(queued) <= queued && old(log) <= log && old(registry.history) <= registry.history
        invariant ShownAt(log, |old(log)|, noticesToDeliver[..index], thread, taken, at)
        invariant HeldKept(taken, Resets(registry.history), outerHeld + Ids(noticesToDeliver[index..]), held)
        invariant index > 0 && BoundaryDuring(shows) ==> taken < Resets(registry.history)
        invariant (index == 0 ==> rest == shows && Resets(registry.history) == taken) && |at| == index && StaleBehindBoundary(log, at, shows)
        decreases |noticesToDeliver| - index
      {
        ghost var x := noticesToDeliver[index];
        NextToShow(noticesToDeliver, index, outer);
        NextHeld(noticesToDeliver, index, outerHeld);
        ghost var now, holding := Resets(registry.history), held;
        HeldOnly(taken, now, outerHeld + Ids(noticesToDeliver[index..]), held);
        ghost var s := Shown(x, thread, taken, Resets(registry.history));
        OneMoreShown(log, |old(log)|, noticesToDeliver, index, thread, taken, at, s);
        StaleMore(log, at, shows, s);
        at := at + [|log|];
        ghost var before := log + [s];
        rest := ShowOne(noticesToDeliver[index], thread, rest, taken);
        LaterShown(before, log, |old(log)|, noticesToDeliver[..index + 1], thread, taken, at);
        LaterStale(before, log, at, shows);
        HeldNext(taken, now, Resets(registry.history), noticesToDeliver, index, outerHeld, holding, held);
        index := index + 1;
      }
      assert noticesToDeliver[..index] == noticesToDeliver && noticesToDeliver[index..] == [];
    }

    // Events dispatched one after the other.
    method CallAll(es: Dispatches)
      requires Valid()
      modifies Footprint()
      ensures Valid() && Progress()
      ensures es.Done? ==> log == old(log) && registry.history == old(registry.history)
      ensures es.Then? ==> old(registry.history) + Heard(es.first.kind) <= registry.history
      decreases es, 2
    {
      hide Consistent, EntryOk, Balanced, NoticesOk, OnceEach, Sorted, FreshOnce, Resets, Heard;
      match es
      case Done =>
      case Then(first, rest) =>
        var passedOn := Call(first);
        CallAll(rest);
    }

    /**
     ProcessEvent's hook. Reserved tokens are consumed, and everything else reaches the original. Whatever is
     dispatched while messages are shown, no notice is shown more often than it was queued, no feature has
     two queued between resets, and none is shown twice between resets but by a stale notice. What is pending for the
     thread is shown at once if the chat manager exists, and unless further events are dispatched nothing else is.
     */
    method Call(e: Dispatch) returns (passedOn: bool)
      requires Valid()
      modifies Footprint()
      ensures Valid() && Progress() && ShownNotices(log) + dropped + inFlight <= queued && FreshOnce(log)
      ensures passedOn <==> !(e.kind.Cap? && IsToken(e.kind.token))
      ensures old(registry.history) + Heard(e.kind) <= registry.history
      ensures Announced(old(registry.history), e, old(notices[..]), log, |old(log)|)
      ensures passedOn && e.original.Then? ==>
        exists h :: old(registry.history) + Heard(e.kind) <= h && h + Heard(e.original.first.kind) <= registry.history
      ensures e.original.Done? ==> Exactly(e, old(registry.history), old(notices[..]), old(log), registry.history, log)
      decreases e, 2
    {
      hide Consistent, EntryOk, Balanced, NoticesOk, OnceEach, IsToken, OnTheirThreads, Announced, Exactly, Heard, Sorted, FreshOnce, Resets;
      passedOn := BeforeOriginal(e);
      if passedOn {
        ghost var before, h := log, registry.history;
        CallAll(e.original);
        assert e.original.Then? ==> h + Heard(e.original.first.kind) <= registry.history;
        StillAnnounced(old(registry.history), e, old(notices[..]), before, log, |old(log)|);
      }
      BalancedIsBound(queued, log, dropped, inFlight, notices[..]);
    }

    // What the hook does before the original is called, if it is.
    method BeforeOriginal(e: Dispatch) returns (passedOn: bool)
      requires Valid()
      modifies Footprint()
      ensures Valid() && Progress()
      ensures passedOn <==> !(e.kind.Cap? && IsToken(e.kind.token))
      ensures old(registry.history) + Heard(e.kind) <= registry.history
      ensures Announced(old(registry.history), e, old(notices[..]), log, |old(log)|)
      ensures Exactly(e, old(registry.history), old(notices[..]), old(log), registry.history, log)
      decreases e, 1
    {
      hide Consistent, EntryOk, Balanced, NoticesOk, OnceEach, IsToken, ShownAt, Ready, Notifies, NoticeOf, Inserted, OnTheirThreads, Announced, Sorted, FreshOnce,
        Resets;
      passedOn := true;
      if e.kind.Cap? {
        ResetsMore(registry.history, Received(e.kind.token, e.kind.accepts));
        var consumed := ReceiveToken(e.kind.token, e.kind.accepts, e.thread);
        passedOn := !consumed;
      } else if e.kind.Boundary? {
        ResetsMore(registry.history, WasReset);
        EnterInstance();
      }
      ghost var now, resets := notices[..], Resets(registry.history);
      DeliverPendingMismatchNotices(e.thread, e.chatManager, e.shows);
      AllDelivered(old(registry.history), e, old(notices[..]), now, log, |old(log)|, resets);
      HowManyReady(old(registry.history), e, old(notices[..]), now);
    }

    // The ClientCapBandwidth branch: a reserved token goes to the registry and may queue a notice.
    method ReceiveToken(token: Int32, accepts: bool, thread: nat) returns (consumed: bool)
      requires Valid()
      modifies Footprint()
      ensures Valid() && consumed == IsToken(token)
      ensures log == old(log) && inFlight == old(inFlight) && dropped == old(dropped) && held == old(held)
      ensures registry.history == if consumed then old(registry.history) + [Received(token, accepts)] else old(registry.history)
      ensures
        var h, kind := old(registry.history), Cap(token, accepts);
        if Notifies(h, kind) then
          && consumed && queued == old(queued) + multiset{NoticeOf(h, kind, thread)}
          && queuedSince == old(queuedSince) + [FeatureIdOf(token)]
          && Inserted(old(notices[..]), notices[..], NoticeOf(h, kind, thread))
        else queued == old(queued) && queuedSince == old(queuedSince) && notices[..] == old(notices[..])
    {
      hide Consistent, EntryOk, Balanced, NoticesOk, OnceEach, IsToken, FeatureIdOf, ReleaseOf, Sorted, FreshOnce, Resets;
      ghost var h := registry.history;
      ResetsMore(h, Received(token, accepts));
      PendingAreQueued(log, Resets(h), queuedSince, held, notices[..]);
      var outcome := registry.HandleServerToken(token, accepts);
      if outcome.result.NotMagic? {
        return false;
      }
      TokenNoticed(notices[..], queuedSince, h, token, accepts);
      if outcome.shouldNotifyUser {
        var room := QueueMismatchNotice(outcome, thread);
      }
      consumed := true;
    }
  }

  lemma {:induction false} AllDelivered(h: seq<Event>, e: Dispatch, ns: seq<Notice>, ns': seq<Notice>, log: seq<Shown>, from_: nat,
                                        taken: nat)
    requires e.chatManager ==> exists at :: ShownAt(log, from_, Ready(ns', e.thread), e.thread, taken, at)
    requires e.kind.Boundary? || if Notifies(h, e.kind) then Inserted(ns, ns', NoticeOf(h, e.kind, e.thread)) else ns' == ns
    ensures Announced(h, e, ns, log, from_)
  {
    hide ShownSince, Ready, ShownAt, OutcomeOf;
    if e.chatManager && !e.kind.Boundary? {
      var at :| ShownAt(log, from_, Ready(ns', e.thread), e.thread, taken, at);
      ReadyAllShown(ns', e.thread, log, from_, taken, at);
      if Notifies(h, e.kind) {
        var x := NoticeOf(h, e.kind, e.thread);
        var i :| 0 <= i < |ns| && !ns[i].pending && ns' == ns[i := x];
        assert ns'[i] == x;
        forall j | 0 <= j < |ns| && ns[j].pending && ns[j].deliveryThreadId == e.thread
          ensures ShownSince(log, from_, ns[j], e.thread)
        {
          assert ns'[j] == ns[j];
        }
      }
    }
  }

  // The registry's part of an event with a token.
  lemma {:induction false} TokenNoticed(ns: seq<Notice>, ids: seq<Id>, h: seq<Event>, token: Int32, accepts: bool)
    requires NoticesOk(ns, h) && OnceEach(ids, h) && IsToken(token)
    ensures NoticesOk(ns, h + [Received(token, accepts)]) && OnceEach(ids, h + [Received(token, accepts)])
    ensures OutcomeOf(h, token, accepts).shouldNotifyUser ==>
      NoticedAfter(h + [Received(token, accepts)], FeatureIdOf(token)) && FeatureIdOf(token) !in ids
  {
    hide ReleaseOf, FeatureIdOf, IsToken;
    StillNoticed(ns, ids, h, Received(token, accepts));
    OneMore(h, Received(token, accepts), FeatureIdOf(token));
    KnownHasId(h, FeatureIdOf(token));
  }

  lemma {:induction false} ReadyIsTheirs(ns: seq<Notice>, thread: nat)
    ensures forall k :: 0 <= k < |Ready(ns, thread)| ==> Ready(ns, thread)[k].deliveryThreadId == thread
    decreases |ns|
  {
    if ns != [] {
      ReadyIsTheirs(ns[..|ns| - 1], thread);
    }
  }
}