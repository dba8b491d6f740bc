/** When a dial starts, in terms of what happened to the peer: the exact schedule. */
module DialSchedule {
  import opened Basics
  import opened Backoff

  /** The wait after the given number of failures in a row. */
  function Wait(failures: nat): nat {
    if failures <= 1 then 40_000
    else if failures == 2 then 80_000
    else if failures == 3 then 160_000
    else 300_000
  }

  /** A dial to `peer` comes to its end. */
  predicate EndsDial(ev: Event, peer: Id) {
    (ev.DialFailed? || ev.DialSucceeded?) && ev.peer == peer
  }

  predicate Fails(ev: Event, peer: Id) {
    ev.DialFailed? && ev.peer == peer
  }

  /** The peer has shown that it is there. */
  predicate Answers(ev: Event, peer: Id) {
    (ev.DialSucceeded? || ev.SignOfLife?) && ev.peer == peer
  }

  /** A dial was started and has not ended. */
  ghost predicate Busy(evs: seq<Event>, peer: Id) {
    exists i :: 0 <= i < |evs| && StartedAt(evs, peer, i)
  }

  ghost predicate StartedAt(evs: seq<Event>, peer: Id, i: nat)
    requires i < |evs|
  {
    && Starts(After(evs[..i]), evs[i], peer)
    && forall j :: i < j < |evs| ==> !EndsDial(evs[j], peer)
  }

  /** The failures of `peer` since it last answered: how many, when the last one was, and
      whether the network has changed since. */
  datatype Ledger = Clean | Failing(count: nat, last: nat, hinted: bool)

  function LedgerOf(evs: seq<Event>, peer: Id): Ledger {
    if evs == [] then Clean
    else
      var before, ev := LedgerOf(evs[..|evs| - 1], peer), evs[|evs| - 1];
      if Fails(ev, peer) then Failing(if before.Failing? then before.count + 1 else 1, ev.at, false)
      else if Answers(ev, peer) then Clean
      else if ev.NetworkChanged? && before.Failing? then before.(hinted := true)
      else before
  }

  ghost predicate AnsweredAfter(evs: seq<Event>, peer: Id, i: nat) {
    exists j :: i < j < |evs| && Answers(evs[j], peer)
  }

  lemma AnsweredNext(evs: seq<Event>, ev: Event, peer: Id, i: nat)
    requires i < |evs|
    ensures AnsweredAfter(evs + [ev], peer, i) <==> AnsweredAfter(evs, peer, i) || Answers(ev, peer)
  {
    var all := evs + [ev];
    if AnsweredAfter(evs, peer, i) {
      var j :| i < j < |evs| && Answers(evs[j], peer);
      assert Answers(all[j], peer);
    }
    assert all[|evs|] == ev;
  }

  /** Clean: every failure was followed by an answer. */
  lemma {:induction false} CleanExactlyWhenAnswered(evs: seq<Event>, peer: Id)
    ensures LedgerOf(evs, peer) == Clean <==>
            forall i :: 0 <= i < |evs| && Fails(evs[i], peer) ==> AnsweredAfter(evs, peer, i)
  {
    if evs != [] {
      var n := |evs| - 1;
      CleanExactlyWhenAnswered(evs[..n], peer);
      assert evs == evs[..n] + [evs[n]];
      forall i | 0 <= i < n
        ensures AnsweredAfter(evs, peer, i) <==> AnsweredAfter(evs[..n], peer, i) || Answers(evs[n], peer)
      {
        AnsweredNext(evs[..n], evs[n], peer, i);
      }
    }
  }

  /** Failing: the last failure that no answer followed, one more than before it, and the
      network changes since. */
  lemma {:induction false} FailingSinceThen(evs: seq<Event>, peer: Id, i: nat)
    requires i < |evs| && Fails(evs[i], peer)
    requires forall j :: i < j < |evs| ==> !Fails(evs[j], peer) && !Answers(evs[j], peer)
    ensures var before := LedgerOf(evs[..i], peer);
            LedgerOf(evs, peer) == Failing(if before.Failing? then before.count + 1 else 1, evs[i].at,
                                           exists j :: i < j < |evs| && evs[j].NetworkChanged?)
  {
    var n := |evs| - 1;
    if i < n {
      FailingSinceThen(evs[..n], peer, i);
      assert evs[..n][..i] == evs[..i];
      if j :| i < j < |evs| && evs[j].NetworkChanged? {
        assert j < n ==> evs[..n][j].NetworkChanged?;
      }
      if j :| i < j < n && evs[..n][j].NetworkChanged? {
        assert evs[j].NetworkChanged?;
      }
    }
  }

  lemma {:induction false} BusyIsDialing(evs: seq<Event>, peer: Id)
    ensures Busy(evs, peer) <==> peer in After(evs).dialing
  {
    if evs != [] {
      var n := |evs| - 1;
      BusyIsDialing(evs[..n], peer);
      forall i | 0 <= i < n
        ensures StartedAt(evs, peer, i) <==> StartedAt(evs[..n], peer, i) && !EndsDial(evs[n], peer)
      {
        assert evs[..n][..i] == evs[..i];
      }
      if i :| 0 <= i < n && StartedAt(evs[..n], peer, i) {
        assert !EndsDial(evs[n], peer) ==> StartedAt(evs, peer, i);
      }
      assert StartedAt(evs, peer, n) <==> Starts(After(evs[..n]), evs[n], peer);
    }
  }

  predicate Fits(l: Ledger, entry: Option<Entry>) {
    match l
    case Clean => entry == None
    case Failing(count, last, hinted) =>
      && count >= 1 && entry.Some?
      && entry.value.failures == Min(count, U32_MAX)
      && entry.value.nextOk == if hinted then 0 else Min(last + Wait(count), U64_MAX)
  }

  lemma FitsAfterFailure(l: Ledger, entry: Option<Entry>, at: nat)
    requires Fits(l, entry)
    ensures Fits(Failing(if l.Failing? then l.count + 1 else 1, at, false), Some(Failed(entry, at)))
  {
    DelayValues(Min(if l.Failing? then l.count + 1 else 1, U32_MAX));
  }

  lemma {:induction false} TableFitsLedger(evs: seq<Event>, peer: Id)
    ensures Fits(LedgerOf(evs, peer), EntryOf(After(evs).backoff, peer))
  {
    if evs != [] {
      var n := |evs| - 1;
      TableFitsLedger(evs[..n], peer);
      if Fails(evs[n], peer) {
        FitsAfterFailure(LedgerOf(evs[..n], peer), EntryOf(After(evs[..n]).backoff, peer), evs[n].at);
      }
    }
  }

  /** The exact schedule. After any run of events, a tick starts a dial to a peer if and only
      if it lists the peer, no dial to it is in flight, and the peer has answered since its
      last failure (or never failed), or the network has changed since, or 40, 80, 160 or
      300 s have passed since (capped at the last time that a u64 can hold). */
  lemma StartsExactlyOnSchedule(evs: seq<Event>, toDial: seq<Id>, at: nat, peer: Id)
    ensures Starts(After(evs), Tick(toDial, at), peer) <==>
            && peer in toDial
            && !Busy(evs, peer)
            && match LedgerOf(evs, peer)
               case Clean => true
               case Failing(count, last, hinted) => hinted || at >= Min(last + Wait(count), U64_MAX)
  {
    BusyIsDialing(evs, peer);
    TableFitsLedger(evs, peer);
  }
}
