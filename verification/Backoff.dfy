/** Mesh dialing: at most one dial in flight per peer, and the per-peer backoff that
    spaces out dials to a peer that keeps failing. */
module Backoff {
  import opened Basics

  type Id = nat

  const DIAL_TIMEOUT_MS: nat := 20_000
  const DIAL_BACKOFF_MAX_MS: nat := 300_000
  const U32_MAX: nat := 0xffff_ffff
  const U64_MAX: nat := 0xffff_ffff_ffff_ffff

  datatype Entry = Entry(failures: nat, nextOk: nat)

  /** The backoff table and the set of peers with a dial in flight. */
  datatype State = State(backoff: map<Id, Entry>, dialing: set<Id>)

  function Min(a: nat, b: nat): nat {
    if a < b then a else b
  }

  /** The wait after the given number of consecutive failures. The shift is capped at 20,
      so the u64 product cannot saturate. */
  function Delay(failures: nat): nat {
    Min(Min(DIAL_TIMEOUT_MS * Pow2(Min(failures, 20)), U64_MAX), DIAL_BACKOFF_MAX_MS)
  }

  function Failed(prior: Option<Entry>, now: nat): Entry {
    var failures := Min((if prior.Some? then prior.value.failures else 0) + 1, U32_MAX);
    Entry(failures, Min(now + Delay(failures), U64_MAX))
  }

  predicate IsDue(backoff: map<Id, Entry>, peer: Id, now: nat) {
    peer in backoff ==> now >= backoff[peer].nextOk
  }

  function EntryOf(backoff: map<Id, Entry>, peer: Id): Option<Entry> {
    if peer in backoff then Some(backoff[peer]) else None
  }

  /** `dial_backoff_filter`: the due peers, in order. */
  function DialBackoffFilter(toDial: seq<Id>, backoff: map<Id, Entry>, now: nat): (due: seq<Id>)
    ensures forall p :: p in due <==> p in toDial && IsDue(backoff, p, now)
  {
    if toDial == [] then []
    else
      var n := |toDial| - 1;
      DialBackoffFilter(toDial[..n], backoff, now) + if IsDue(backoff, toDial[n], now) then [toDial[n]] else []
  }

  // ----- events -----

  /** A maintenance tick, the outcome of a dial, a sign of life, a network change. */
  datatype Event =
    | Tick(toDial: seq<Id>, at: nat)
    | DialFailed(peer: Id, at: nat)
    | DialSucceeded(peer: Id)
    | SignOfLife(peer: Id)
    | NetworkChanged

  /** Whether a tick starts a dial to `peer`. */
  predicate Starts(s: State, ev: Event, peer: Id) {
    ev.Tick? && peer in ev.toDial && IsDue(s.backoff, peer, ev.at) && peer !in s.dialing
  }

  function Step(s: State, ev: Event): State {
    match ev
    case Tick(toDial, at) => s.(dialing := s.dialing + set p | p in toDial && IsDue(s.backoff, p, at))
    case DialFailed(peer, at) =>
      State(s.backoff[peer := Failed(EntryOf(s.backoff, peer), at)], s.dialing - {peer})
    case DialSucceeded(peer) => State(s.backoff - {peer}, s.dialing - {peer})
    case SignOfLife(peer) => s.(backoff := s.backoff - {peer})
    case NetworkChanged => s.(backoff := map p | p in s.backoff :: s.backoff[p].(nextOk := 0))
  }

  /** The dialer of one node. */
  class Dialer {
    var backoff: map<Id, Entry>
    var dialing: set<Id>

    ghost function Now(): State
      reads this
    {
      State(backoff, dialing)
    }

    constructor ()
      ensures Now() == State(map[], {})
    {
      backoff := map[];
      dialing := {};
    }

    /** The dialing part of a tick: filter, then start each peer that has no dial in
        flight (`spawn_dials`). */
    method Tick(toDial: seq<Id>, now: nat) returns (started: seq<Id>)
      modifies this
      ensures Now() == Step(old(Now()), Event.Tick(toDial, now))
      ensures forall p :: p in started <==> Starts(old(Now()), Event.Tick(toDial, now), p)
      ensures forall i, j :: 0 <= i < j < |started| ==> started[i] != started[j]
    {
      var due := DialBackoffFilter(toDial, backoff, now);
      started := [];
      for i := 0 to |due|
        invariant backoff == old(backoff)
        invariant dialing == old(dialing) + set p | p in due[..i]
        invariant forall p :: p in started <==> p in due[..i] && p !in old(dialing)
        invariant forall a, b :: 0 <= a < b < |started| ==> started[a] != started[b]
      {
        assert due[..i + 1] == due[..i] + [due[i]];
        if due[i] !in dialing {
          dialing := dialing + {due[i]};
          started := started + [due[i]];
        }
      }
      assert due[..|due|] == due;
    }

    /** A dial ends: the outcome is recorded and the slot is freed. */
    method Outcome(peer: Id, success: bool, now: nat)
      modifies this
      ensures Now() == Step(old(Now()), if success then DialSucceeded(peer) else DialFailed(peer, now))
    {
      if success {
        ResetDialBackoff(peer);
      } else {
        RecordDialFailure(peer, now);
      }
      dialing := dialing - {peer};
    }

    method RecordDialFailure(peer: Id, now: nat)
      modifies this`backoff
      ensures backoff == old(backoff)[peer := Failed(EntryOf(old(backoff), peer), now)]
    {
      var failures := if peer in backoff then backoff[peer].failures else 0;
      failures := if failures < U32_MAX then failures + 1 else U32_MAX;
      var delay := DIAL_TIMEOUT_MS * Pow2(if failures < 20 then failures else 20);
      if delay > U64_MAX {
        delay := U64_MAX;
      }
      if delay > DIAL_BACKOFF_MAX_MS {
        delay := DIAL_BACKOFF_MAX_MS;
      }
      backoff := backoff[peer := Entry(failures, if now + delay <= U64_MAX then now + delay else U64_MAX)];
    }

    method ResetDialBackoff(peer: Id)
      modifies this`backoff
      ensures backoff == old(backoff) - {peer}
    {
      backoff := backoff - {peer};
    }

    method ExpireDialBackoff()
      modifies this`backoff
      ensures Now() == Step(old(Now()), NetworkChanged)
    {
      backoff := map p | p in backoff :: backoff[p].(nextOk := 0);
    }
  }

  // ----- the schedule over whole runs -----

  function After(evs: seq<Event>): State {
    if evs == [] then State(map[], {}) else Step(After(evs[..|evs| - 1]), evs[|evs| - 1])
  }

  /** When dials to `peer` were started. */
  function StartTimes(evs: seq<Event>, peer: Id): seq<nat> {
    if evs == [] then []
    else
      var n := |evs| - 1;
      StartTimes(evs[..n], peer) + if Starts(After(evs[..n]), evs[n], peer) then [evs[n].at] else []
  }

  /** When dials to `peer` failed. */
  function FailTimes(evs: seq<Event>, peer: Id): seq<nat> {
    if evs == [] then []
    else
      var n := |evs| - 1;
      FailTimes(evs[..n], peer) + if evs[n].DialFailed? && evs[n].peer == peer then [evs[n].at] else []
  }

  predicate Timed(ev: Event) {
    ev.Tick? || ev.DialFailed?
  }

  /** Times are at most `now`, which stays clear of the end of u64. A failure is no earlier
      than the ticks before it, nor than the failures of the same peer before it. A tick may
      carry a time from before a failure that is already on record. */
  predicate Clocked(evs: seq<Event>, now: nat) {
    && now + DIAL_BACKOFF_MAX_MS <= U64_MAX
    && (forall i :: 0 <= i < |evs| && Timed(evs[i]) ==> evs[i].at <= now)
    && (forall i, j :: 0 <= i < j < |evs| && evs[i].Tick? && evs[j].DialFailed? ==> evs[i].at <= evs[j].at)
    && (forall i, j :: 0 <= i < j < |evs| && evs[i].DialFailed? && evs[j].DialFailed? && evs[i].peer == evs[j].peer
          ==> evs[i].at <= evs[j].at)
  }

  /** `peer` never answers: its dials only fail, and only dials in flight end. */
  ghost predicate Unreachable(evs: seq<Event>, peer: Id) {
    forall i :: 0 <= i < |evs| ==>
      && (evs[i].DialFailed? && evs[i].peer == peer ==> peer in After(evs[..i]).dialing)
      && !((evs[i].DialSucceeded? || evs[i].SignOfLife?) && evs[i].peer == peer)
      && !evs[i].NetworkChanged?
  }

  /** The least time from the first failure to the end of the wait after failure `f`. */
  function Spacing(f: nat): nat
    requires f >= 1
  {
    if f == 1 then 40_000 else if f == 2 then 120_000 else 280_000 + 300_000 * (f - 3)
  }

  lemma {:induction false} Pow2Grows(n: nat)
    requires n >= 4
    ensures Pow2(n) >= 16
  {
    if n > 4 {
      Pow2Grows(n - 1);
    } else {
      assert Pow2(4) == 2 * Pow2(3) == 4 * Pow2(2) == 8 * Pow2(1);
    }
  }

  /** The schedule: 40, 80, 160 seconds, then five minutes for ever. */
  lemma DelayValues(f: nat)
    requires f >= 1
    ensures Delay(f) == if f == 1 then 40_000 else if f == 2 then 80_000 else if f == 3 then 160_000 else 300_000
  {
    if f >= 4 {
      Pow2Grows(Min(f, 20));
    } else {
      assert Pow2(f) == 2 * Pow2(f - 1);
      assert f >= 2 ==> Pow2(f - 1) == 2 * Pow2(f - 2);
      assert f >= 3 ==> Pow2(f - 2) == 2 * Pow2(f - 3);
      assert Pow2(0) == 1;
      Pow2Small(f);
    }
  }

  lemma Pow2Small(f: nat)
    requires f <= 3
    ensures Pow2(f) == if f == 0 then 1 else if f == 1 then 2 else if f == 2 then 4 else 8
  {
    if f == 3 {
      assert Pow2(2) == 2 * Pow2(1);
    }
  }

  /** Starts and failures of one peer on schedule: one more start than failures while a
      dial is in flight, the table entry counting the failures, and every start after
      the first far enough from the first failure. */
  ghost predicate Spaced(starts: seq<nat>, fails: seq<nat>, entry: Option<Entry>, inFlight: bool) {
    && |starts| == |fails| + (if inFlight then 1 else 0)
    && (entry.Some? <==> fails != [])
    && (fails != [] ==> entry.value.failures == Min(|fails|, U32_MAX))
    && (fails != [] ==> entry.value.nextOk >= fails[0] + Spacing(|fails|))
    && (forall n :: 1 <= n < |starts| ==> starts[n] >= fails[0] + Spacing(n))
  }

  lemma SpacedAfterFailure(starts: seq<nat>, fails: seq<nat>, entry: Option<Entry>, at: nat)
    requires Spaced(starts, fails, entry, true) && at + DIAL_BACKOFF_MAX_MS <= U64_MAX
    requires forall n :: 0 <= n < |starts| ==> starts[n] <= at
    ensures Spaced(starts, fails + [at], Some(Failed(entry, at)), false)
  {
    DelayValues(Min(|fails| + 1, U32_MAX));
    if fails != [] {
      assert starts[|fails|] >= fails[0] + Spacing(|fails|);
    }
    assert (fails + [at])[0] == if fails == [] then at else fails[0];
  }

  lemma SpacedAfterStart(starts: seq<nat>, fails: seq<nat>, entry: Option<Entry>, at: nat)
    requires Spaced(starts, fails, entry, false) && (entry.Some? ==> at >= entry.value.nextOk)
    ensures Spaced(starts + [at], fails, entry, true)
  {
  }

  ghost predicate OnSchedule(evs: seq<Event>, peer: Id) {
    Spaced(StartTimes(evs, peer), FailTimes(evs, peer), EntryOf(After(evs).backoff, peer), peer in After(evs).dialing)
  }

  lemma {:induction false} StartsAreTicks(evs: seq<Event>, peer: Id, bound: nat)
    requires forall i :: 0 <= i < |evs| && evs[i].Tick? ==> evs[i].at <= bound
    ensures forall n :: 0 <= n < |StartTimes(evs, peer)| ==> StartTimes(evs, peer)[n] <= bound
  {
    if evs != [] {
      StartsAreTicks(evs[..|evs| - 1], peer, bound);
    }
  }

  lemma TickKeepsSchedule(evs: seq<Event>, peer: Id)
    requires evs != [] && evs[|evs| - 1].Tick? && OnSchedule(evs[..|evs| - 1], peer)
    ensures OnSchedule(evs, peer)
  {
    var n := |evs| - 1;
    var before := After(evs[..n]);
    assert FailTimes(evs, peer) == FailTimes(evs[..n], peer);
    if Starts(before, evs[n], peer) {
      SpacedAfterStart(StartTimes(evs[..n], peer), FailTimes(evs, peer), EntryOf(before.backoff, peer), evs[n].at);
    } else {
      assert StartTimes(evs, peer) == StartTimes(evs[..n], peer);
    }
  }

  lemma FailureKeepsSchedule(evs: seq<Event>, peer: Id, now: nat)
    requires Clocked(evs, now) && evs != []
    requires evs[|evs| - 1].DialFailed? && evs[|evs| - 1].peer == peer && peer in After(evs[..|evs| - 1]).dialing
    requires OnSchedule(evs[..|evs| - 1], peer)
    ensures OnSchedule(evs, peer)
  {
    var n := |evs| - 1;
    var at := evs[n].at;
    assert StartTimes(evs, peer) == StartTimes(evs[..n], peer);
    StartsAreTicks(evs[..n], peer, at);
    SpacedAfterFailure(StartTimes(evs[..n], peer), FailTimes(evs[..n], peer),
                       EntryOf(After(evs[..n]).backoff, peer), at);
  }

  lemma {:induction false} AlwaysOnSchedule(evs: seq<Event>, peer: Id, now: nat)
    requires Clocked(evs, now) && Unreachable(evs, peer)
    ensures OnSchedule(evs, peer)
  {
    if evs != [] {
      var n := |evs| - 1;
      assert forall i :: 0 <= i < n ==> evs[..n][..i] == evs[..i];
      AlwaysOnSchedule(evs[..n], peer, now);
      if evs[n].Tick? {
        TickKeepsSchedule(evs, peer);
      } else if evs[n].DialFailed? && evs[n].peer == peer {
        FailureKeepsSchedule(evs, peer, now);
      } else {
        assert StartTimes(evs, peer) == StartTimes(evs[..n], peer);
        assert FailTimes(evs, peer) == FailTimes(evs[..n], peer);
      }
    }
  }

  /** An unreachable peer never has two dials in flight, and its `n`-th dial (`n >= 4`)
      does not start before 280 s + (n - 4) * 300 s after the first failure. */
  lemma DialsAreSpacedOut(evs: seq<Event>, peer: Id, now: nat, n: nat)
    requires Clocked(evs, now) && Unreachable(evs, peer)
    requires 4 <= n <= |StartTimes(evs, peer)|
    ensures n - 1 <= |FailTimes(evs, peer)| <= |StartTimes(evs, peer)| <= |FailTimes(evs, peer)| + 1
    ensures StartTimes(evs, peer)[n - 1] >= FailTimes(evs, peer)[0] + 280_000 + 300_000 * (n - 4)
  {
    AlwaysOnSchedule(evs, peer, now);
  }

  /** A network change makes every peer due at once, yet the next failure resumes the
      schedule where it was: it leads to the very entry it would have led to without
      the change. */
  lemma NetworkChangeKeepsCount(s: State, peer: Id, at: nat)
    ensures IsDue(Step(s, NetworkChanged).backoff, peer, at)
    ensures Step(Step(s, NetworkChanged), DialFailed(peer, at)).backoff[peer]
            == Step(s, DialFailed(peer, at)).backoff[peer]
    ensures var e := Step(s, DialFailed(peer, at)).backoff[peer];
            peer in s.backoff && 3 <= s.backoff[peer].failures && at + DIAL_BACKOFF_MAX_MS <= U64_MAX
            ==> e.nextOk == at + DIAL_BACKOFF_MAX_MS
  {
    if peer in s.backoff {
      DelayValues(Min(s.backoff[peer].failures + 1, U32_MAX));
    }
  }

  // ----- after a network change -----

  function RunFrom(s: State, evs: seq<Event>): State {
    if evs == [] then s else Step(RunFrom(s, evs[..|evs| - 1]), evs[|evs| - 1])
  }

  /** Nothing forgives `peer` its failures. */
  predicate Unforgiven(evs: seq<Event>, peer: Id) {
    forall i :: 0 <= i < |evs| ==> !Forgives(evs[i], peer)
  }

  /** One more failure waits at least as long as a count that is no higher asks for. */
  lemma FailureHoldsOff(prior: Entry, at: nat, kept: nat)
    requires prior.failures >= kept && kept <= U32_MAX && at + DIAL_BACKOFF_MAX_MS <= U64_MAX
    ensures Failed(Some(prior), at).failures >= kept && Failed(Some(prior), at).nextOk >= at + Delay(kept + 1)
  {
    DelayValues(kept + 1);
    DelayValues(Min(prior.failures + 1, U32_MAX));
  }

  /** The entry of `peer` counts at least `kept` failures and is not due before `until`. */
  predicate HeldOff(s: State, peer: Id, kept: nat, until: nat) {
    peer in s.backoff && s.backoff[peer].failures >= kept && s.backoff[peer].nextOk >= until
  }

  predicate Forgives(ev: Event, peer: Id) {
    ((ev.DialSucceeded? || ev.SignOfLife?) && ev.peer == peer) || ev.NetworkChanged?
  }

  lemma StepHoldsOff(s: State, ev: Event, peer: Id, kept: nat, until: nat, wait: nat)
    requires HeldOff(s, peer, kept, until) && kept <= U32_MAX && !Forgives(ev, peer) && wait == Delay(kept + 1)
    requires ev.DialFailed? ==> ev.at + DIAL_BACKOFF_MAX_MS <= U64_MAX
    ensures HeldOff(Step(s, ev), peer, kept, if ev.DialFailed? && ev.peer == peer then ev.at + wait else until)
  {
    FailureHoldsOff(s.backoff[peer], if ev.DialFailed? then ev.at else 0, kept);
  }

  /** Failures on record never fall below the kept count, and each failure holds off the
      next dial for at least the wait after one more failure than that. */
  lemma {:induction false} FailuresHoldOff(s: State, evs: seq<Event>, peer: Id, kept: nat, now: nat, i: nat, wait: nat)
    requires HeldOff(s, peer, kept, 0) && kept <= U32_MAX && wait == Delay(kept + 1)
    requires Clocked(evs, now) && Unforgiven(evs, peer)
    requires i < |evs| ==> evs[i].DialFailed? && evs[i].peer == peer
    ensures HeldOff(RunFrom(s, evs), peer, kept, if i < |evs| then evs[i].at + wait else 0)
  {
    if evs != [] {
      var n := |evs| - 1;
      FailuresHoldOff(s, evs[..n], peer, kept, now, i, wait);
      StepHoldsOff(RunFrom(s, evs[..n]), evs[n], peer, kept, if i < n then evs[i].at + wait else 0, wait);
    }
  }

  /** After a network change the schedule goes on at the kept count over the whole run that
      follows: any dial that starts after a failure starts no sooner than the wait that
      belongs to one more failure than were kept. From three kept failures on that is the
      full five minutes. */
  lemma NetworkChangeKeepsSpacing(s: State, evs: seq<Event>, peer: Id, now: nat, i: nat, j: nat)
    requires peer in s.backoff && s.backoff[peer].failures <= U32_MAX
    requires Clocked(evs, now) && Unforgiven(evs, peer) && i < j < |evs|
    requires evs[i].DialFailed? && evs[i].peer == peer
    requires Starts(RunFrom(Step(s, NetworkChanged), evs[..j]), evs[j], peer)
    ensures evs[j].at >= evs[i].at + Delay(s.backoff[peer].failures + 1)
    ensures s.backoff[peer].failures >= 3 ==> evs[j].at >= evs[i].at + DIAL_BACKOFF_MAX_MS
  {
    DelayValues(s.backoff[peer].failures + 1);
    var kept := s.backoff[peer].failures;
    FailuresHoldOff(Step(s, NetworkChanged), evs[..j], peer, kept, now, i, Delay(kept + 1));
  }

  /** Filtering keeps the order, and every listing of a peer or none. */
  lemma {:induction false} FilterKeepsOrder(a: seq<Id>, b: seq<Id>, backoff: map<Id, Entry>, now: nat)
    ensures DialBackoffFilter(a + b, backoff, now)
            == DialBackoffFilter(a, backoff, now) + DialBackoffFilter(b, backoff, now)
  {
    if b == [] {
      assert a + b == a;
    } else {
      var n := |b| - 1;
      var last := if IsDue(backoff, b[n], now) then [b[n]] else [];
      var front, kept := DialBackoffFilter(a, backoff, now), DialBackoffFilter(b[..n], backoff, now);
      FilterKeepsOrder(a, b[..n], backoff, now);
      assert (a + b)[..|a + b| - 1] == a + b[..n] && (a + b)[|a + b| - 1] == b[n];
      assert DialBackoffFilter(b, backoff, now) == kept + last;
      assert (front + kept) + last == front + (kept + last);
    }
  }
}
