/** The registry of server-gated features: a fixed table that server tokens and resets act on. */
module FeatureRegistry {
  import opened Words

  const MAXIMUM_FEATURE_COUNT := 32
  const MAXIMUM_FEATURE_NAME_LENGTH := 64

  type Id = i: int | 0 <= i < 0x100
  type Release = r: int | 0 <= r < 0x1_0000
  type Int32 = x: int | -0x8000_0000 <= x < 0x8000_0000

  // The token's bytes: 0x6D, the feature and the release.
  predicate IsToken(token: Int32) { Wrap(token) / 0x100_0000 == 0x6D }

  function FeatureIdOf(token: Int32): Id { Wrap(token) / 0x1_0000 % 0x100 }

  function ReleaseOf(token: Int32): Release { Wrap(token) % 0x1_0000 }

  // MakeToken: the magic byte, the feature in the next and the release in the lower half, as a signed number.
  function MakeToken(featureId: Id, featureRelease: Release): Int32
  {
    Signed32(0x6D * 0x100_0000 + featureId * 0x1_0000 + featureRelease)
  }

  /** Exactly one number is the token of a feature and a release, and it is read back as these. */
  lemma {:induction false} TokenRoundTrip(token: Int32, featureId: Id, featureRelease: Release)
    ensures IsToken(token) && FeatureIdOf(token) == featureId && ReleaseOf(token) == featureRelease <==>
            token == MakeToken(featureId, featureRelease)
  {
    SignedWraps(token);
    var w: int := Wrap(token);
    var q := w / 0x1_0000;
    assert w == 0x1_0000 * q + w % 0x1_0000 && q == 0x100 * (q / 0x100) + q % 0x100;
    assert w / 0x100_0000 == q / 0x100;
  }

  datatype FeatureState = NotAdvertised | Active | ReleaseMismatch | ActivationFailed

  // handler is the activation handler, if any, known by its address.
  datatype Registration = Registration(featureId: Id, featureRelease: Release, name: Option<string>, handler: Option<nat>)

  datatype Entry = Entry(used: bool, mismatchNoticeIssued: bool, state: FeatureState, serverRelease: Release, registration: Registration)

  datatype TokenResult = NotMagic | UnknownFeature | FeatureReleaseMismatch | AlreadyActive | Activated | Failed

  datatype TokenOutcome = TokenOutcome(result: TokenResult, featureId: Id, serverRelease: Release, clientRelease: Release,
                                       shouldNotifyUser: bool)

  // What has happened to the registry; accepts is what the handler would answer an activation.
  datatype Event = Registered(registration: Registration) | Received(token: Int32, accepts: bool) | WasReset

  // A call of an activation handler and its answer.
  datatype Call = Call(featureId: Id, active: bool, answer: bool)

  predicate ValidName(name: Option<string>)
  {
    name.Some? && 1 <= |name.value| <= MAXIMUM_FEATURE_NAME_LENGTH
    && forall k :: 0 <= k < |name.value| ==> ' ' <= name.value[k] <= '~'
  }

  predicate Acceptable(r: Registration) { r.featureId != 0 && r.featureRelease != 0 && ValidName(r.name) }

  // The registration of a feature: the first one that was made for it.
  function Known(h: seq<Event>, id: Id): Option<Registration>
    decreases |h|
  {
    if h == [] then None
    else
      var before := Known(h[..|h| - 1], id);
      match h[|h| - 1]
      case Registered(r) => if before.None? && r.featureId == id then Some(r) else before
      case _ => before
  }

  // A token for the feature with its own release, and one with another.
  predicate Matches(e: Event, r: Registration)
  {
    e.Received? && IsToken(e.token) && FeatureIdOf(e.token) == r.featureId && ReleaseOf(e.token) == r.featureRelease
  }

  predicate Conflicts(e: Event, r: Registration)
  {
    e.Received? && IsToken(e.token) && FeatureIdOf(e.token) == r.featureId && ReleaseOf(e.token) != r.featureRelease
  }

  predicate Accepts(e: Event, r: Registration) { e.Received? && (r.handler.None? || e.accepts) }

  // The feature is active after the events.
  function ActiveAfter(h: seq<Event>, id: Id): bool
    decreases |h|
  {
    if h == [] then false
    else
      var e, before := h[|h| - 1], h[..|h| - 1];
      match Known(before, id)
      case None => false
      case Some(r) =>
        if e.WasReset? || Conflicts(e, r) then false
        else if Matches(e, r) then ActiveAfter(before, id) || Accepts(e, r)
        else ActiveAfter(before, id)
  }

  // A mismatch has been noticed since the last reset.
  function NoticedAfter(h: seq<Event>, id: Id): bool
    decreases |h|
  {
    if h == [] then false
    else
      var e, before := h[|h| - 1], h[..|h| - 1];
      match Known(before, id)
      case None => false
      case Some(r) => if e.WasReset? then false else Conflicts(e, r) || NoticedAfter(before, id)
  }

  // Event k is an accepted token of a known feature, with neither a reset nor a mismatch after it.
  ghost predicate ActivatedAt(h: seq<Event>, id: Id, k: nat)
    requires k < |h|
  {
    match Known(h[..k], id)
    case None => false
    case Some(r) => Matches(h[k], r) && Accepts(h[k], r) && forall j :: k < j < |h| ==> !h[j].WasReset? && !Conflicts(h[j], r)
  }

  lemma {:induction false} KnownHasId(h: seq<Event>, id: Id)
    ensures Known(h, id).Some? ==> Known(h, id).value.featureId == id
    decreases |h|
  {
    if h != [] {
      KnownHasId(h[..|h| - 1], id);
    }
  }

  lemma {:induction false} KnownStays(h: seq<Event>, id: Id, k: nat)
    requires k <= |h| && Known(h[..k], id).Some?
    ensures Known(h, id) == Known(h[..k], id)
    decreases |h|
  {
    if k < |h| {
      var before := h[..|h| - 1];
      assert before[..k] == h[..k];
      KnownStays(before, id, k);
    } else {
      assert h[..k] == h;
    }
  }

  /**
   A feature is active exactly when an accepted token with its release followed its last reset and its
   last token with another release.
   */
  lemma {:induction false} ActiveIffAcceptedSince(h: seq<Event>, id: Id)
    ensures ActiveAfter(h, id) <==> exists k :: 0 <= k < |h| && ActivatedAt(h, id, k)
    decreases |h|
  {
    if h != [] {
      var n := |h| - 1;
      var before := h[..n];
      ActiveIffAcceptedSince(before, id);
      forall k | 0 <= k < n
        ensures before[..k] == h[..k]
        ensures Known(h[..k], id).Some? ==> Known(before, id) == Known(h[..k], id)
      {
        assert before[..k] == h[..k];
        if Known(h[..k], id).Some? {
          KnownStays(before, id, k);
        }
      }
      if ActiveAfter(h, id) {
        if ActiveAfter(before, id) {
          var k :| 0 <= k < n && ActivatedAt(before, id, k);
          assert ActivatedAt(h, id, k);
        } else {
          assert ActivatedAt(h, id, n);
        }
      }
      forall k | 0 <= k < |h| && ActivatedAt(h, id, k)
        ensures ActiveAfter(h, id)
      {
        if k < n {
          assert ActivatedAt(before, id, k);
        }
      }
    }
  }

  // What one more event does.
  lemma {:induction false} OneMore(h: seq<Event>, e: Event, id: Id)
    ensures Known(h + [e], id) ==
      (if Known(h, id).None? && e.Registered? && e.registration.featureId == id then Some(e.registration) else Known(h, id))
    ensures ActiveAfter(h + [e], id) == (match Known(h, id)
      case None => false
      case Some(r) => !e.WasReset? && !Conflicts(e, r) && (ActiveAfter(h, id) || (Matches(e, r) && Accepts(e, r))))
    ensures NoticedAfter(h + [e], id) == (match Known(h, id)
      case None => false
      case Some(r) => !e.WasReset? && (Conflicts(e, r) || NoticedAfter(h, id)))
  {
    assert (h + [e])[..|h|] == h;
  }

  // Accepted activations minus deactivations of a feature.
  function Balance(calls: seq<Call>, id: Id): int
    decreases |calls|
  {
    if calls == [] then 0
    else
      var c := calls[|calls| - 1];
      Balance(calls[..|calls| - 1], id) + (if c.featureId != id then 0 else if !c.active then -1 else if c.answer then 1 else 0)
  }

  lemma {:induction false} BalanceMore(calls: seq<Call>, c: Call, id: Id)
    ensures Balance(calls + [c], id) ==
      Balance(calls, id) + (if c.featureId != id then 0 else if !c.active then -1 else if c.answer then 1 else 0)
  {
    assert (calls + [c])[..|calls|] == calls;
  }

  // What a token amounts to after the events: its feature is unknown, known with another release, active
  // already, or activated unless its handler refuses; a notice is due once between resets.
  function OutcomeOf(h: seq<Event>, token: Int32, accepts: bool): TokenOutcome
  {
    var id, release := FeatureIdOf(token), ReleaseOf(token);
    if !IsToken(token) then TokenOutcome(NotMagic, 0, 0, 0, false)
    else if Known(h, id).None? then TokenOutcome(UnknownFeature, id, release, 0, false)
    else
      var r := Known(h, id).value;
      var result :=
        if release != r.featureRelease then FeatureReleaseMismatch
        else if ActiveAfter(h, id) then AlreadyActive
        else if r.handler.Some? && !accepts then Failed
        else Activated;
      TokenOutcome(result, id, release, r.featureRelease, result.FeatureReleaseMismatch? && !NoticedAfter(h, id))
  }

  // The entry shows what has happened to its feature.
  ghost predicate EntryOk(h: seq<Event>, calls: seq<Call>, e: Entry)
  {
    var id := e.registration.featureId;
    && e.used && Acceptable(e.registration) && Known(h, id) == Some(e.registration)
    && (e.state.Active? <==> ActiveAfter(h, id))
    && (e.mismatchNoticeIssued <==> NoticedAfter(h, id))
    && Balance(calls, id) == if e.state.Active? && e.registration.handler.Some? then 1 else 0
  }

  lemma {:induction false} KeptByOther(h: seq<Event>, calls: seq<Call>, e: Entry, x: Event)
    requires EntryOk(h, calls, e) && !x.WasReset?
    requires x.Received? ==> !(IsToken(x.token) && FeatureIdOf(x.token) == e.registration.featureId)
    ensures EntryOk(h + [x], calls, e)
  {
    hide Acceptable;
    OneMore(h, x, e.registration.featureId);
  }

  lemma {:induction false} KeptByCall(h: seq<Event>, calls: seq<Call>, e: Entry, c: Call)
    requires EntryOk(h, calls, e) && c.featureId != e.registration.featureId
    ensures EntryOk(h, calls + [c], e)
  {
    hide Acceptable;
    BalanceMore(calls, c, e.registration.featureId);
  }

  // What a token of the entry's feature makes of it, and the calls of its handler.
  function AfterToken(e: Entry, release: Release, accepts: bool): Entry
  {
    if release != e.registration.featureRelease then
      e.(state := ReleaseMismatch, serverRelease := release, mismatchNoticeIssued := true)
    else if e.state.Active? then e
    else e.(state := if e.registration.handler.Some? && !accepts then ActivationFailed else Active, serverRelease := release)
  }

  function CallsAtToken(e: Entry, release: Release, accepts: bool): seq<Call>
  {
    if e.registration.handler.None? then []
    else if release != e.registration.featureRelease then
      if e.state.Active? then [Call(e.registration.featureId, false, false)] else []
    else if e.state.Active? then [] else [Call(e.registration.featureId, true, accepts)]
  }

  lemma {:induction false} TokenKeepsEntry(h: seq<Event>, calls: seq<Call>, e: Entry, token: Int32, accepts: bool)
    requires EntryOk(h, calls, e) && IsToken(token) && FeatureIdOf(token) == e.registration.featureId
    ensures EntryOk(h + [Received(token, accepts)], calls + CallsAtToken(e, ReleaseOf(token), accepts), AfterToken(e, ReleaseOf(token), accepts))
  {
    hide Acceptable, IsToken, FeatureIdOf, ReleaseOf;
    var x, id := Received(token, accepts), e.registration.featureId;
    OneMore(h, x, id);
    var c := CallsAtToken(e, ReleaseOf(token), accepts);
    if c == [] {
      assert calls + c == calls;
    } else {
      BalanceMore(calls, c[0], id);
    }
  }

  // And a reset.
  function AfterReset(e: Entry): Entry { e.(state := NotAdvertised, serverRelease := 0, mismatchNoticeIssued := false) }

  function CallsAtReset(e: Entry): seq<Call>
  {
    if e.state.Active? && e.registration.handler.Some? then [Call(e.registration.featureId, false, false)] else []
  }

  lemma {:induction false} ResetKeepsEntry(h: seq<Event>, calls: seq<Call>, e: Entry)
    requires EntryOk(h, calls, e)
    ensures EntryOk(h + [WasReset], calls + CallsAtReset(e), AfterReset(e))
  {
    hide Acceptable;
    OneMore(h, WasReset, e.registration.featureId);
    var c := CallsAtReset(e);
    if c == [] {
      assert calls + c == calls;
    } else {
      BalanceMore(calls, c[0], e.registration.featureId);
    }
  }

  // Calls of one feature's handler do not concern the others.
  lemma {:induction false} KeptByCalls(h: seq<Event>, calls: seq<Call>, e: Entry, more: seq<Call>)
    requires EntryOk(h, calls, e) && |more| <= 1 && forall k :: 0 <= k < |more| ==> more[k].featureId != e.registration.featureId
    ensures EntryOk(h, calls + more, e)
  {
    if more == [] {
      assert calls + more == calls;
    } else {
      KeptByCall(h, calls, e, more[0]);
      assert calls + more == calls + [more[0]];
    }
  }

  lemma {:induction false} EntryShows(h: seq<Event>, calls: seq<Call>, e: Entry)
    requires EntryOk(h, calls, e)
    ensures Known(h, e.registration.featureId) == Some(e.registration)
    ensures e.state.Active? <==> ActiveAfter(h, e.registration.featureId)
    ensures e.mismatchNoticeIssued <==> NoticedAfter(h, e.registration.featureId)
  {
  }

  // A token and the calls of its feature's handler leave the entries of other features alone.
  lemma {:induction false} TokenOfOther(h: seq<Event>, calls: seq<Call>, x: Event, entries: seq<Entry>, more: seq<Call>)
    requires x.Received? && |more| <= 1 && forall k :: 0 <= k < |more| ==> more[k].featureId == FeatureIdOf(x.token)
    requires forall i :: 0 <= i < |entries| ==> EntryOk(h, calls, entries[i])
    ensures forall i :: 0 <= i < |entries| && entries[i].registration.featureId != FeatureIdOf(x.token) ==>
              EntryOk(h + [x], calls + more, entries[i])
    ensures forall id :: Known(h + [x], id) == Known(h, id)
    ensures forall id :: id != FeatureIdOf(x.token) ==> Balance(calls + more, id) == Balance(calls, id)
  {
    hide EntryOk;
    forall i | 0 <= i < |entries| && entries[i].registration.featureId != FeatureIdOf(x.token)
      ensures EntryOk(h + [x], calls + more, entries[i])
    {
      KeptByCalls(h, calls, entries[i], more);
      KeptByOther(h, calls + more, entries[i], x);
    }
    forall id: Id
      ensures Known(h + [x], id) == Known(h, id)
    {
      OneMore(h, x, id);
    }
    forall id: Id | id != FeatureIdOf(x.token)
      ensures Balance(calls + more, id) == Balance(calls, id)
    {
      if more == [] {
        assert calls + more == calls;
      } else {
        assert calls + more == calls + [more[0]];
        BalanceMore(calls, more[0], id);
      }
    }
  }

  lemma {:induction false} UnknownIsInactive(h: seq<Event>, id: Id)
    requires Known(h, id).None?
    ensures !ActiveAfter(h, id) && !NoticedAfter(h, id)
  {
  }

  /**
   The table agrees with the history: each registered feature has one entry, which is active when it should
   be, and whose handler has been told so once more often than it has been told otherwise.
   */
  ghost predicate Consistent(es: seq<Entry>, n: nat, h: seq<Event>, calls: seq<Call>)
  {
    && |es| == MAXIMUM_FEATURE_COUNT && n <= |es|
    && (forall i :: n <= i < |es| ==> !es[i].used)
    && (forall i :: 0 <= i < n ==> EntryOk(h, calls, es[i]))
    && (forall i, j :: 0 <= i < j < n ==> es[i].registration.featureId != es[j].registration.featureId)
    && (forall id :: Known(h, id).Some? ==> exists i :: 0 <= i < n && es[i].registration.featureId == id)
    && (forall id :: Known(h, id).None? ==> Balance(calls, id) == 0)
  }

  /**
   After any run, a feature's handler has been told to activate and has agreed exactly once more often than
   it has been told to deactivate if the feature is active, and equally often otherwise.
   */
  lemma {:induction false} ActivationsBalance(es: seq<Entry>, n: nat, h: seq<Event>, calls: seq<Call>, id: Id)
    requires Consistent(es, n, h, calls)
    ensures Balance(calls, id) ==
      match Known(h, id)
      case None => 0
      case Some(r) => if r.handler.Some? && ActiveAfter(h, id) then 1 else 0
  {
    if Known(h, id).Some? {
      var i :| 0 <= i < n && es[i].registration.featureId == id;
      assert EntryOk(h, calls, es[i]);
    }
  }

  lemma {:induction false} TokenStep(es: seq<Entry>, n: nat, h: seq<Event>, calls: seq<Call>, i: nat, token: Int32, accepts: bool)
    requires Consistent(es, n, h, calls) && i < n
    requires IsToken(token) && FeatureIdOf(token) == es[i].registration.featureId
    ensures
      var release := ReleaseOf(token);
      Consistent(es[i := AfterToken(es[i], release, accepts)], n, h + [Received(token, accepts)],
                 calls + CallsAtToken(es[i], release, accepts))
  {
    hide EntryOk, IsToken, FeatureIdOf, ReleaseOf;
    var x, release := Received(token, accepts), ReleaseOf(token);
    var more := CallsAtToken(es[i], release, accepts);
    EntryShows(h, calls, es[i]);
    TokenKeepsEntry(h, calls, es[i], token, accepts);
    TokenOfOther(h, calls, x, es[..n], more);
    var es' := es[i := AfterToken(es[i], release, accepts)];
    assert forall j :: 0 <= j < |es| ==> es'[j].registration == es[j].registration;
    forall j | 0 <= j < n
      ensures EntryOk(h + [x], calls + more, es'[j])
    {
      assert j != i ==> es'[j] == es[..n][j];
    }
  }

  lemma {:induction false} UnknownStep(es: seq<Entry>, n: nat, h: seq<Event>, calls: seq<Call>, token: Int32, accepts: bool)
    requires Consistent(es, n, h, calls) && Known(h, FeatureIdOf(token)).None?
    ensures Consistent(es, n, h + [Received(token, accepts)], calls)
  {
    hide EntryOk, FeatureIdOf;
    var x := Received(token, accepts);
    TokenOfOther(h, calls, x, es[..n], []);
    assert calls + [] == calls;
    forall j | 0 <= j < n
      ensures EntryOk(h + [x], calls, es[j])
    {
      EntryShows(h, calls, es[j]);
      assert es[j] == es[..n][j];
    }
  }

  lemma {:induction false} RegisterStep(es: seq<Entry>, n: nat, h: seq<Event>, calls: seq<Call>, r: Registration)
    requires Consistent(es, n, h, calls) && n < |es| && Known(h, r.featureId).None? && Acceptable(r)
    ensures Consistent(es[n := Entry(true, false, NotAdvertised, 0, r)], n + 1, h + [Registered(r)], calls)
    ensures Known(h + [Registered(r)], r.featureId) == Some(r)
  {
    hide EntryOk, Acceptable;
    var x, e := Registered(r), Entry(true, false, NotAdvertised, 0, r);
    var es' := es[n := e];
    forall id: Id
      ensures Known(h + [x], id) == if id == r.featureId then Some(r) else Known(h, id)
    {
      OneMore(h, x, id);
    }
    forall j | 0 <= j < n
      ensures EntryOk(h + [x], calls, es'[j]) && es'[j].registration.featureId != r.featureId
    {
      KeptByOther(h, calls, es[j], x);
      EntryShows(h, calls, es[j]);
    }
    NewEntryOk(h, calls, r);
    forall id: Id | Known(h + [x], id).Some?
      ensures exists i :: 0 <= i < n + 1 && es'[i].registration.featureId == id
    {
      if id == r.featureId {
        assert es'[n].registration.featureId == id;
      } else {
        var i :| 0 <= i < n && es[i].registration.featureId == id;
        assert es'[i].registration.featureId == id;
      }
    }
  }

  lemma {:induction false} NewEntryOk(h: seq<Event>, calls: seq<Call>, r: Registration)
    requires Known(h, r.featureId).None? && Acceptable(r) && Balance(calls, r.featureId) == 0
    ensures EntryOk(h + [Registered(r)], calls, Entry(true, false, NotAdvertised, 0, r))
  {
    hide Acceptable;
    OneMore(h, Registered(r), r.featureId);
  }

  // A reset of the table that has got to entry k.
  ghost predicate Resetting(es: seq<Entry>, es': seq<Entry>, n: nat, k: nat, h: seq<Event>, calls: seq<Call>)
  {
    && |es| == |es'| == MAXIMUM_FEATURE_COUNT && n <= |es| && k <= |es|
    && (forall j :: n <= j < |es| ==> !es[j].used)
    && (forall j :: 0 <= j < n ==> es[j].used)
    && (forall i, j :: 0 <= i < j < n ==> es[i].registration.featureId != es[j].registration.featureId)
    && (forall j :: 0 <= j < |es| ==> es'[j] == if j < k && j < n then AfterReset(es[j]) else es[j])
    && (forall j :: 0 <= j < n ==> EntryOk(if j < k then h + [WasReset] else h, calls, es'[j]))
    && (forall id :: Known(h, id).Some? ==> exists i :: 0 <= i < n && es[i].registration.featureId == id)
    && (forall id :: Known(h, id).None? ==> Balance(calls, id) == 0)
  }

  lemma {:induction false} ResetStarts(es: seq<Entry>, n: nat, h: seq<Event>, calls: seq<Call>)
    requires Consistent(es, n, h, calls)
    ensures Resetting(es, es, n, 0, h, calls)
  {
    hide EntryOk;
    forall j | 0 <= j < n
      ensures es[j].used
    {
      EntryUsed(h, calls, es[j]);
    }
  }

  lemma {:induction false} EntryUsed(h: seq<Event>, calls: seq<Call>, e: Entry)
    requires EntryOk(h, calls, e)
    ensures e.used
  {
  }

  lemma {:induction false} ResetStep(es: seq<Entry>, es': seq<Entry>, n: nat, k: nat, h: seq<Event>, calls: seq<Call>)
    requires Resetting(es, es', n, k, h, calls) && k < n
    ensures Resetting(es, es'[k := AfterReset(es'[k])], n, k + 1, h, calls + CallsAtReset(es'[k]))
  {
    hide EntryOk;
    var more := CallsAtReset(es'[k]);
    var r := es'[k := AfterReset(es'[k])];
    assert EntryOk(h, calls, es'[k]);
    ResetKeepsEntry(h, calls, es'[k]);
    EntryShows(h, calls, es'[k]);
    forall j | 0 <= j < n && j != k
      ensures EntryOk(if j < k then h + [WasReset] else h, calls + more, r[j])
    {
      KeptByCalls(if j < k then h + [WasReset] else h, calls, es'[j], more);
    }
    forall id: Id | Known(h, id).None?
      ensures Balance(calls + more, id) == 0
    {
      if more == [] {
        assert calls + more == calls;
      } else {
        assert calls + more == calls + [more[0]];
        BalanceMore(calls, more[0], id);
      }
    }
  }

  lemma {:induction false} ResetEnds(es: seq<Entry>, es': seq<Entry>, n: nat, h: seq<Event>, calls: seq<Call>)
    requires Resetting(es, es', n, MAXIMUM_FEATURE_COUNT, h, calls)
    ensures Consistent(es', n, h + [WasReset], calls)
  {
    hide EntryOk;
    forall id: Id
      ensures Known(h + [WasReset], id) == Known(h, id)
    {
      OneMore(h, WasReset, id);
    }
    forall id: Id | Known(h, id).Some?
      ensures exists i :: 0 <= i < n && es'[i].registration.featureId == id
    {
      var i :| 0 <= i < n && es[i].registration.featureId == id;
      assert es'[i].registration.featureId == id;
    }
  }

  class FeatureRegistry {
    const entries: array<Entry>
    ghost var count: nat                 // the entries in use are the first ones
    ghost var history: seq<Event>
    ghost var calls: seq<Call>           // of the activation handlers

    ghost predicate Valid()
      reads this, entries
    {
      Consistent(entries[..], count, history, calls)
    }

    constructor ()
      ensures Valid() && fresh(entries) && history == [] && calls == [] && count == 0 && entries.Length == 32
    {
      entries := new Entry[MAXIMUM_FEATURE_COUNT](
        _ => Entry(false, false, NotAdvertised, 0, Registration(0, 0, None, None)));
      count, history, calls := 0, [], [];
    }

    // The entry of the feature, or the number of entries.
    method Find(featureId: Id) returns (r: nat)
      requires Valid()
      ensures r < count <= entries.Length || r == entries.Length
      ensures r < entries.Length ==>
        && entries[r].registration.featureId == featureId && EntryOk(history, calls, entries[r])
        && Known(history, featureId) == Some(entries[r].registration)
      ensures r == entries.Length ==> Known(history, featureId).None?
    {
      hide EntryOk;
      r := 0;
      while r < entries.Length
        invariant r <= entries.Length
        invariant forall i :: 0 <= i < r && i < count ==> entries[i].registration.featureId != featureId
      {
        UsedIs(r);
        if entries[r].used && entries[r].registration.featureId == featureId {
          EntryShows(history, calls, entries[r]);
          return;
        }
        r := r + 1;
      }
      assert forall i :: 0 <= i < count ==> entries[..][i].registration.featureId != featureId;
    }

    lemma UsedIs(i: nat)
      requires Valid() && i < entries.Length
      ensures entries[i].used <==> i < count
      ensures i < count ==> EntryOk(history, calls, entries[i])
    {
      assert entries[..][i] == entries[i];
    }

    /** IsActive: the gate of the feature's code. */
    method IsActive(featureId: Id) returns (r: bool)
      requires Valid()
      ensures r == ActiveAfter(history, featureId)
    {
      hide EntryOk;
      var i := Find(featureId);
      if i == entries.Length {
        UnknownIsInactive(history, featureId);
        return false;
      }
      EntryShows(history, calls, entries[i]);
      r := entries[i].state.Active?;
    }

    // IsValidFeatureName, over the characters before the terminating zero.
    method IsValidFeatureName(name: Option<string>) returns (r: bool)
      ensures r <==> ValidName(name)
      ensures r <==> name.Some? && 1 <= |name.value| <= 64 && forall k :: 0 <= k < |name.value| ==> 0x20 <= name.value[k] as int <= 0x7E
    {
      if name.None? {
        return false;
      }
      var index := 0;
      while index <= MAXIMUM_FEATURE_NAME_LENGTH
        invariant index <= |name.value| && index <= MAXIMUM_FEATURE_NAME_LENGTH + 1
        invariant forall k :: 0 <= k < index ==> ' ' <= name.value[k] <= '~'
      {
        if index == |name.value| {
          return index != 0;
        }
        if name.value[index] < ' ' || name.value[index] > '~' {
          return false;
        }
        index := index + 1;
      }
      return false;
    }

    // The first free entry, or the number of entries.
    method FirstFree() returns (i: nat)
      requires Valid()
      ensures i == count
    {
      hide EntryOk;
      i := 0;
      while i < entries.Length
        invariant i <= count
      {
        UsedIs(i);
        if !entries[i].used {
          return;
        }
        i := i + 1;
      }
    }

    /** Register: a new feature takes the first free entry; the same registration again is accepted. */
    method Register(registration: Registration) returns (ok: bool)
      requires Valid()
      modifies this, entries
      ensures Valid() && calls == old(calls)
      ensures ok <==>
        (Acceptable(registration)
         && match old(Known(history, registration.featureId))
            case Some(r) => r == registration
            case None => old(count) < MAXIMUM_FEATURE_COUNT)
      ensures history ==
        if ok && old(Known(history, registration.featureId)).None? then old(history) + [Registered(registration)] else old(history)
      ensures ok ==> Known(history, registration.featureId) == Some(registration)
    {
      hide EntryOk;
      var named := IsValidFeatureName(registration.name);
      if registration.featureId == 0 || registration.featureRelease == 0 || !named {
        return false;
      }
      var existing := Find(registration.featureId);
      if existing < entries.Length {
        return entries[existing].registration == registration;
      }
      var free := FirstFree();
      if free == entries.Length {
        return false;
      }
      RegisterStep(entries[..], count, history, calls, registration);
      ghost var es := entries[..];
      entries[free] := Entry(true, false, NotAdvertised, 0, registration);
      assert entries[..] == es[free := entries[free]];
      history := history + [Registered(registration)];
      count := count + 1;
      ok := true;
    }

    ghost method Noted(c: Call)
      modifies this`calls
      ensures calls == old(calls) + [c]
    {
      calls := calls + [c];
    }

    /**
     HandleServerToken; accepts is the answer of the feature's handler, should it be called. A token with the
     feature's release activates it, one with another deactivates it and asks for a notice once between
     resets; entries of other features stay as they are.
     */
    method HandleServerToken(token: Int32, accepts: bool) returns (outcome: TokenOutcome)
      requires Valid()
      modifies this`history, this`calls, entries
      ensures Valid()
      ensures history == if IsToken(token) then old(history) + [Received(token, accepts)] else old(history)
      ensures outcome == OutcomeOf(old(history), token, accepts)
      ensures forall i :: 0 <= i < entries.Length && !(IsToken(token) && i < count && old(entries[i]).registration.featureId == FeatureIdOf(token)) ==>
                entries[i] == old(entries[i])
      ensures !IsToken(token) ==> calls == old(calls)
    {
      hide EntryOk, IsToken, FeatureIdOf, ReleaseOf, Consistent, ActiveAfter, NoticedAfter, Known, AfterToken, CallsAtToken;
      outcome := TokenOutcome(NotMagic, 0, 0, 0, false);
      if !IsToken(token) {
        return;
      }
      outcome := outcome.(featureId := FeatureIdOf(token), serverRelease := ReleaseOf(token));
      var i := Find(outcome.featureId);
      ghost var event := Received(token, accepts);
      if i == entries.Length {
        UnknownStep(entries[..], count, history, calls, token, accepts);
        history := history + [event];
        outcome := outcome.(result := UnknownFeature);
        return;
      }
      ghost var es, e := entries[..], entries[i];
      EntryShows(history, calls, e);
      TokenStep(es, count, history, calls, i, token, accepts);
      outcome := Advertise(i, outcome, accepts);
      history := history + [event];
    }

    // The part of HandleServerToken for a known feature.
    method Advertise(i: nat, known: TokenOutcome, accepts: bool) returns (outcome: TokenOutcome)
      requires i < entries.Length && known.featureId == entries[i].registration.featureId
      modifies this`calls, entries
      ensures entries[..] == old(entries[..])[i := AfterToken(old(entries[i]), known.serverRelease, accepts)]
      ensures calls == old(calls) + CallsAtToken(old(entries[i]), known.serverRelease, accepts)
      ensures
        var e := old(entries[i]);
        var r := e.registration;
        outcome == known.(
          clientRelease := r.featureRelease,
          result := if known.serverRelease != r.featureRelease then FeatureReleaseMismatch
                    else if e.state.Active? then AlreadyActive
                    else if r.handler.Some? && !accepts then Failed
                    else Activated,
          shouldNotifyUser := if known.serverRelease != r.featureRelease then !e.mismatchNoticeIssued else known.shouldNotifyUser)
    {
      outcome := known.(clientRelease := entries[i].registration.featureRelease);
      if outcome.clientRelease != outcome.serverRelease {
        outcome := outcome.(result := FeatureReleaseMismatch, shouldNotifyUser := !entries[i].mismatchNoticeIssued);
        Deactivate(i);
        entries[i] := entries[i].(serverRelease := outcome.serverRelease, state := ReleaseMismatch, mismatchNoticeIssued := true);
        return;
      }
      if entries[i].state.Active? {
        outcome := outcome.(result := AlreadyActive);
        return;
      }
      entries[i] := entries[i].(serverRelease := outcome.serverRelease);
      if entries[i].registration.handler.Some? {
        Noted(Call(outcome.featureId, true, accepts));
      }
      if entries[i].registration.handler.Some? && !accepts {
        outcome := outcome.(result := Failed);
        entries[i] := entries[i].(state := ActivationFailed);
        return;
      }
      entries[i] := entries[i].(state := Active);
      outcome := outcome.(result := Activated);
    }

    // Deactivate: tells the handler if the feature was active.
    method Deactivate(i: nat)
      requires i < entries.Length
      modifies this`calls, entries
      ensures entries[..] == old(entries[..])[i := old(entries[i]).(state := NotAdvertised, serverRelease := 0)]
      ensures calls == old(calls) + CallsAtReset(old(entries[i]))
    {
      if entries[i].state.Active? && entries[i].registration.handler.Some? {
        Noted(Call(entries[i].registration.featureId, false, false));
      }
      entries[i] := entries[i].(state := NotAdvertised, serverRelease := 0);
    }

    /** Reset: every feature is inactive until it is advertised again. */
    method Reset()
      requires Valid()
      modifies this`history, this`calls, entries
      ensures Valid() && history == old(history) + [WasReset]
    {
      hide EntryOk, Consistent;
      ghost var es, h := entries[..], history;
      ResetStarts(es, count, h, calls);
      var i := 0;
      while i < entries.Length
        invariant i <= entries.Length && history == h && count == old(count)
        invariant Resetting(es, entries[..], count, i, h, calls)
      {
        assert entries[i] == entries[..][i];
        if entries[i].used {
          ResetStep(es, entries[..], count, i, h, calls);
          ghost var now, c := entries[..], calls;
          Deactivate(i);
          entries[i] := entries[i].(mismatchNoticeIssued := false);
          assert entries[..] == now[i := AfterReset(now[i])] && calls == c + CallsAtReset(now[i]);
        }
        i := i + 1;
      }
      history := history + [WasReset];
      ResetEnds(es, entries[..], count, h, calls);
    }
  }
}