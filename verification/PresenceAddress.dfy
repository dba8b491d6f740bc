/** The public address of a peer, which heartbeats and observations both set: which addresses
    a peer can end up with, whatever the order of delivery. */
module PresenceAddress {
  import opened Basics
  import opened Ordering
  import opened Presence

  predicate Names(ev: Event, id: Id, ip: string) {
    ev.Observation? && ev.peer == id && ev.connection.publicIp == Some(ip)
  }

  predicate NamesSome(ev: Event, id: Id) {
    ev.Observation? && ev.peer == id && ev.connection.publicIp.Some?
  }

  /** Some observation of `id` carries a public address. */
  ghost predicate AddressObserved(events: seq<Event>, id: Id) {
    exists k :: 0 <= k < |events| && NamesSome(events[k], id)
  }

  /** A heartbeat of `id` that is not older than `seen`. */
  ghost predicate Live(seen: nat, events: seq<Event>, id: Id, h: Heartbeat) {
    Beat(id, h) in events && h.ts >= seen
  }

  /** Heartbeat `g` names no address, and is newer than every live one that does. */
  ghost predicate Silences(seen: nat, events: seq<Event>, id: Id, g: Heartbeat) {
    && Live(seen, events, id, g) && g.publicIp.None?
    && forall h :: Live(seen, events, id, h) && h.publicIp.Some? ==> h.ts < g.ts
  }

  ghost predicate CanBeSilenced(seen: nat, events: seq<Event>, id: Id) {
    exists g :: Silences(seen, events, id, g)
  }

  /** Heartbeat `h` names an address, and no live one that names an address is newer. */
  ghost predicate NewestNaming(seen: nat, events: seq<Event>, id: Id, h: Heartbeat) {
    && Live(seen, events, id, h) && h.publicIp.Some?
    && forall g :: Live(seen, events, id, g) && g.publicIp.Some? ==> g.ts <= h.ts
  }

  ghost predicate NothingNames(seen: nat, events: seq<Event>, id: Id) {
    forall g :: Live(seen, events, id, g) ==> g.publicIp.None?
  }

  /** A heartbeat with an address that can have the last word: it is newest among those that
      name one, or a newer one without an address can keep the others out. */
  ghost predicate CanSpeakLast(seen: nat, events: seq<Event>, id: Id, h: Heartbeat) {
    && Live(seen, events, id, h) && h.publicIp.Some?
    && (NewestNaming(seen, events, id, h) || CanBeSilenced(seen, events, id))
  }

  /** The addresses that `id` can end up with. */
  ghost predicate PossibleAddress(before: PeerStatus, events: seq<Event>, id: Id, ip: Option<string>) {
    || (ip.Some? && exists k :: 0 <= k < |events| && Names(events[k], id, ip.value))
    || (exists h :: CanSpeakLast(before.lastSeen, events, id, h) && h.publicIp == ip)
    || (ip == before.publicIp && !AddressObserved(events, id)
        && (NothingNames(before.lastSeen, events, id) || CanBeSilenced(before.lastSeen, events, id)))
  }

  // ----- every run ends on a possible address -----

  /** The time on record is the newest of the initial time and the heartbeats. */
  lemma LastSeenIsNewest(peers: map<Id, PeerStatus>, events: seq<Event>, id: Id)
    ensures var seen, last := EntryOf(peers, id).lastSeen, EntryOf(Run(peers, events), id).lastSeen;
            && last >= seen && (forall h :: Beat(id, h) in events ==> h.ts <= last)
            && (last == seen || exists h :: Live(seen, events, id, h) && h.ts == last)
  {
    var before, after := EntryOf(peers, id), EntryOf(Run(peers, events), id);
    NewestWins(peers, events, id);
    if !(AllStale(before.lastSeen, events, id) && ProfileOf(after) == ProfileOf(before)) {
      var h :| Newest(before.lastSeen, events, id, h) && ProfileOf(after) == Advertised(h);
      assert Live(before.lastSeen, events, id, h);
    }
  }

  lemma BeatInFront(events: seq<Event>, ev: Event, id: Id, h: Heartbeat)
    ensures Beat(id, h) in events + [ev] <==> Beat(id, h) in events || ev == Beat(id, h)
  {
  }

  /** An event that brings no heartbeat with an address that counts leaves the possible
      addresses possible. `last` is the time on record. */
  lemma StillSilenced(seen: nat, events: seq<Event>, id: Id, ev: Event, last: nat)
    requires CanBeSilenced(seen, events, id)
    requires last >= seen && (forall h :: Beat(id, h) in events ==> h.ts <= last)
    requires last == seen || exists h :: Live(seen, events, id, h) && h.ts == last
    requires ev.Beat? && ev.peer == id && ev.beat.publicIp.Some? ==> ev.beat.ts < last
    ensures CanBeSilenced(seen, events + [ev], id)
  {
    var g :| Silences(seen, events, id, g);
    var all := events + [ev];
    forall h
      ensures Live(seen, all, id, h) <==> Live(seen, events, id, h) || (ev == Beat(id, h) && h.ts >= seen)
    {
      BeatInFront(events, ev, id, h);
    }
    if last == seen {
      assert Silences(seen, all, id, g);
    } else {
      var top :| Live(seen, events, id, top) && top.ts == last;
      assert g.ts <= last;
      assert Silences(seen, all, id, top);
    }
  }

  lemma BecomesSilenced(seen: nat, events: seq<Event>, id: Id, h: Heartbeat, last: nat)
    requires NothingNames(seen, events, id) || NothingNewerNames(seen, events, id, h)
    requires h.publicIp.Some? && seen <= h.ts < last
    requires exists g :: Live(seen, events, id, g) && g.ts == last
    ensures CanBeSilenced(seen, events + [Beat(id, h)], id)
  {
    var top :| Live(seen, events, id, top) && top.ts == last;
    var all := events + [Beat(id, h)];
    forall g
      ensures Live(seen, all, id, g) <==> Live(seen, events, id, g) || (g == h && g.ts >= seen)
    {
      BeatInFront(events, Beat(id, h), id, g);
    }
    assert Silences(seen, all, id, top);
  }

  ghost predicate NothingNewerNames(seen: nat, events: seq<Event>, id: Id, h: Heartbeat) {
    forall g :: Live(seen, events, id, g) && g.publicIp.Some? ==> g.ts < h.ts
  }

  lemma ObservedEarlier(events: seq<Event>, ev: Event, id: Id, ip: string)
    requires exists k :: 0 <= k < |events| && Names(events[k], id, ip)
    ensures exists k :: 0 <= k < |events + [ev]| && Names((events + [ev])[k], id, ip)
  {
    var k :| 0 <= k < |events| && Names(events[k], id, ip);
    assert (events + [ev])[k] == events[k];
  }

  lemma ObservedNext(events: seq<Event>, ev: Event, id: Id)
    ensures AddressObserved(events + [ev], id) <==>
            AddressObserved(events, id) || NamesSome(ev, id)
  {
    var all := events + [ev];
    if AddressObserved(events, id) {
      var k :| 0 <= k < |events| && NamesSome(events[k], id);
      assert all[k] == events[k];
    }
    assert all[|events|] == ev;
  }

  /** A heartbeat of `id` with an address arrives too late to count. */
  lemma TooLateKeepsPossible(before: PeerStatus, events: seq<Event>, id: Id, h: Heartbeat, last: nat,
                             ip: Option<string>)
    requires PossibleAddress(before, events, id, ip) && h.publicIp.Some? && h.ts < last
    requires last >= before.lastSeen && (forall g :: Beat(id, g) in events ==> g.ts <= last)
    requires last == before.lastSeen || exists g :: Live(before.lastSeen, events, id, g) && g.ts == last
    ensures PossibleAddress(before, events + [Beat(id, h)], id, ip)
  {
    var seen, ev := before.lastSeen, Beat(id, h);
    var all := events + [ev];
    ObservedNext(events, ev, id);
    forall g
      ensures Live(seen, all, id, g) <==> Live(seen, events, id, g) || (g == h && g.ts >= seen)
    {
      BeatInFront(events, ev, id, g);
    }
    if CanBeSilenced(seen, events, id) {
      StillSilenced(seen, events, id, ev, last);
    }
    if ip.Some? && exists k :: 0 <= k < |events| && Names(events[k], id, ip.value) {
      ObservedEarlier(events, ev, id, ip.value);
    } else if g :| CanSpeakLast(seen, events, id, g) && g.publicIp == ip {
      if NewestNaming(seen, events, id, g) && h.ts >= seen && h.ts > g.ts {
        BecomesSilenced(seen, events, id, h, last);
      }
      assert NewestNaming(seen, events, id, g) ==> NewestNaming(seen, all, id, g) || CanBeSilenced(seen, all, id);
      assert CanSpeakLast(seen, all, id, g);
    } else if h.ts >= seen && NothingNames(seen, events, id) {
      BecomesSilenced(seen, events, id, h, last);
    }
  }

  /** An event that names no address keeps every possible address possible. */
  lemma NamelessKeepsPossible(before: PeerStatus, events: seq<Event>, id: Id, ev: Event, ip: Option<string>)
    requires PossibleAddress(before, events, id, ip)
    requires ev.peer == id ==> if ev.Beat? then ev.beat.publicIp.None? else ev.connection.publicIp.None?
    ensures PossibleAddress(before, events + [ev], id, ip)
  {
    var seen, all := before.lastSeen, events + [ev];
    ObservedNext(events, ev, id);
    forall g
      ensures Live(seen, all, id, g) <==> Live(seen, events, id, g) || (ev == Beat(id, g) && g.ts >= seen)
    {
      BeatInFront(events, ev, id, g);
    }
    if g :| Silences(seen, events, id, g) {
      assert Silences(seen, all, id, g);
    }
    if ip.Some? && exists k :: 0 <= k < |events| && Names(events[k], id, ip.value) {
      ObservedEarlier(events, ev, id, ip.value);
    } else if g :| CanSpeakLast(seen, events, id, g) && g.publicIp == ip {
      assert NewestNaming(seen, events, id, g) ==> NewestNaming(seen, all, id, g);
      assert CanSpeakLast(seen, all, id, g);
    }
  }

  /** An event that counts and names an address makes it the last word. */
  lemma NamingIsPossible(before: PeerStatus, events: seq<Event>, id: Id, ev: Event, last: nat)
    requires ev.peer == id && last >= before.lastSeen && (forall g :: Beat(id, g) in events ==> g.ts <= last)
    requires if ev.Beat? then ev.beat.publicIp.Some? && ev.beat.ts >= last else ev.connection.publicIp.Some?
    ensures PossibleAddress(before, events + [ev], id, if ev.Beat? then ev.beat.publicIp else ev.connection.publicIp)
  {
    var seen, all := before.lastSeen, events + [ev];
    if ev.Beat? {
      forall g
        ensures Live(seen, all, id, g) <==> Live(seen, events, id, g) || (ev == Beat(id, g) && g.ts >= seen)
      {
        BeatInFront(events, ev, id, g);
      }
      assert NewestNaming(seen, all, id, ev.beat);
      assert CanSpeakLast(seen, all, id, ev.beat);
    } else {
      assert all[|events|] == ev && Names(ev, id, ev.connection.publicIp.value);
    }
  }

  lemma {:induction false} EndsOnPossible(peers: map<Id, PeerStatus>, events: seq<Event>, id: Id)
    ensures PossibleAddress(EntryOf(peers, id), events, id, EntryOf(Run(peers, events), id).publicIp)
  {
    if events != [] {
      var n := |events| - 1;
      var ev, mid, before := events[n], EntryOf(Run(peers, events[..n]), id), EntryOf(peers, id);
      EndsOnPossible(peers, events[..n], id);
      LastSeenIsNewest(peers, events[..n], id);
      assert events == events[..n] + [ev];
      if ev.peer != id || (if ev.Beat? then ev.beat.publicIp.None? else ev.connection.publicIp.None?) {
        NamelessKeepsPossible(before, events[..n], id, ev, mid.publicIp);
      } else if ev.Beat? && ev.beat.ts < mid.lastSeen {
        TooLateKeepsPossible(before, events[..n], id, ev.beat, mid.lastSeen, mid.publicIp);
      } else {
        NamingIsPossible(before, events[..n], id, ev, mid.lastSeen);
      }
    }
  }

  // ----- every possible address is reached by some order -----

  lemma {:induction false} RunSum(peers: map<Id, PeerStatus>, p: seq<Event>, q: seq<Event>)
    ensures Run(peers, p + q) == Run(Run(peers, p), q)
  {
    if q == [] {
      assert p + q == p;
    } else {
      var n := |q| - 1;
      RunSum(peers, p, q[..n]);
      assert (p + q)[..|p + q| - 1] == p + q[..n];
    }
  }

  /** `ev` does not change the public address of `id` once `bound` is on record. */
  predicate Mute(ev: Event, id: Id, bound: nat) {
    ev.peer == id ==>
      if ev.Beat? then ev.beat.publicIp.None? || ev.beat.ts < bound else ev.connection.publicIp.None?
  }

  lemma {:induction false} AddressKept(peers: map<Id, PeerStatus>, q: seq<Event>, id: Id, bound: nat)
    requires EntryOf(peers, id).lastSeen >= bound && forall k :: 0 <= k < |q| ==> Mute(q[k], id, bound)
    ensures EntryOf(Run(peers, q), id).publicIp == EntryOf(peers, id).publicIp
    ensures EntryOf(Run(peers, q), id).lastSeen >= bound
  {
    if q != [] {
      AddressKept(peers, q[..|q| - 1], id, bound);
      assert Mute(q[|q| - 1], id, bound);
    }
  }

  /** `h` is delivered when nothing newer has been, and what follows is mute. */
  lemma HeardThenKept(peers: map<Id, PeerStatus>, p: seq<Event>, h: Heartbeat, q: seq<Event>, id: Id)
    requires h.publicIp.Some? && h.ts >= EntryOf(peers, id).lastSeen
    requires forall g :: Beat(id, g) in p ==> g.ts <= h.ts
    requires forall k :: 0 <= k < |q| ==> Mute(q[k], id, 0)
    ensures EntryOf(Run(peers, p + [Beat(id, h)] + q), id).publicIp == h.publicIp
  {
    LastSeenIsNewest(peers, p, id);
    RunSum(peers, p + [Beat(id, h)], q);
    RunSum(peers, p, [Beat(id, h)]);
    assert Run(Run(peers, p), [Beat(id, h)]) == Applied(Run(peers, p), Beat(id, h)) by {
      assert [Beat(id, h)][..0] == [];
    }
    AddressKept(Run(peers, p + [Beat(id, h)]), q, id, 0);
  }

  lemma MoveFirst(events: seq<Event>, ev: Event) returns (rest: seq<Event>)
    requires ev in events
    ensures multiset([ev] + rest) == multiset(events)
    ensures forall k :: 0 <= k < |rest| ==> rest[k] in events
  {
    var i :| 0 <= i < |events| && events[i] == ev;
    rest := events[..i] + events[i + 1..];
    assert events == events[..i] + [ev] + events[i + 1..];
  }

  ghost predicate Reaches(peers: map<Id, PeerStatus>, events: seq<Event>, id: Id, ip: Option<string>, p: seq<Event>) {
    multiset(p) == multiset(events) && EntryOf(Run(peers, p), id).publicIp == ip
  }

  lemma ObservedLast(peers: map<Id, PeerStatus>, events: seq<Event>, id: Id, ip: string, k: nat) returns (p: seq<Event>)
    requires k < |events| && Names(events[k], id, ip)
    ensures Reaches(peers, events, id, Some(ip), p)
  {
    p := MoveLast(events, events[k]);
  }

  /** All but the heartbeats without an address, `h` last, and then those. */
  lemma NewestNamingReached(peers: map<Id, PeerStatus>, events: seq<Event>, id: Id, h: Heartbeat)
    returns (p: seq<Event>)
    requires NewestNaming(EntryOf(peers, id).lastSeen, events, id, h)
    ensures Reaches(peers, events, id, h.publicIp, p)
  {
    var bare := (ev: Event) => ev.Beat? && ev.peer == id && ev.beat.publicIp.None?;
    var others, silent := Leave(events, bare), Keep(events, bare);
    KeepAndLeave(events, bare);
    LeaveElements(events, bare, Beat(id, h));
    var rest := MoveFirst(others, Beat(id, h));
    forall k | 0 <= k < |silent|
      ensures Mute(silent[k], id, 0)
    {
      KeepElements(events, bare, silent[k]);
    }
    forall g | Beat(id, g) in rest
      ensures g.ts <= h.ts
    {
      var k :| 0 <= k < |rest| && rest[k] == Beat(id, g);
      LeaveElements(events, bare, rest[k]);
      assert g.ts >= EntryOf(peers, id).lastSeen ==> Live(EntryOf(peers, id).lastSeen, events, id, g);
    }
    p := rest + [Beat(id, h)] + silent;
    HeardThenKept(peers, rest, h, silent, id);
  }

  /** The events with two heartbeats of `id` after all that is no heartbeat of `id`, and the
      others of its heartbeats last. */
  lemma TwoInFront(events: seq<Event>, id: Id, h: Heartbeat, g: Heartbeat)
    returns (others: seq<Event>, rest: seq<Event>)
    requires Beat(id, h) in events && Beat(id, g) in events && h != g
    ensures multiset(others + [Beat(id, h)] + [Beat(id, g)] + rest) == multiset(events)
    ensures forall b :: Beat(id, b) !in others
    ensures forall k :: 0 <= k < |rest| ==> rest[k].Beat? && rest[k].peer == id && rest[k] in events
  {
    var own := (ev: Event) => ev.Beat? && ev.peer == id;
    var beats := Keep(events, own);
    others := Leave(events, own);
    KeepAndLeave(events, own);
    KeepElements(events, own, Beat(id, h));
    KeepElements(events, own, Beat(id, g));
    var r := MoveFirst(beats, Beat(id, h));
    assert Beat(id, g) in multiset([Beat(id, h)] + r);
    rest := MoveFirst(r, Beat(id, g));
    forall k | 0 <= k < |rest|
      ensures rest[k].Beat? && rest[k].peer == id && rest[k] in events
    {
      assert rest[k] in r && rest[k] in beats;
      KeepElements(events, own, rest[k]);
    }
    forall b
      ensures Beat(id, b) !in others
    {
      LeaveElements(events, own, Beat(id, b));
    }
  }

  /** Everything that is no heartbeat of `id`, then `h`, then `g`, which keeps out the rest. */
  lemma SilencedAfter(peers: map<Id, PeerStatus>, events: seq<Event>, id: Id, h: Heartbeat, g: Heartbeat)
    returns (p: seq<Event>)
    requires Live(EntryOf(peers, id).lastSeen, events, id, h) && h.publicIp.Some?
    requires Silences(EntryOf(peers, id).lastSeen, events, id, g)
    ensures Reaches(peers, events, id, h.publicIp, p)
  {
    var others, rest := TwoInFront(events, id, h, g);
    forall k | 0 <= k < |rest|
      ensures Mute(rest[k], id, g.ts)
    {
      var b := rest[k].beat;
      assert b.ts >= EntryOf(peers, id).lastSeen ==> Live(EntryOf(peers, id).lastSeen, events, id, b);
    }
    var front := others + [Beat(id, h)] + [Beat(id, g)];
    HeardThenKept(peers, others, h, [Beat(id, g)], id);
    LastSeenIsNewest(peers, front, id);
    assert Beat(id, g) in front;
    RunSum(peers, front, rest);
    AddressKept(Run(peers, front), rest, id, g.ts);
    p := front + rest;
  }

  lemma PriorKept(peers: map<Id, PeerStatus>, events: seq<Event>, id: Id)
    requires !AddressObserved(events, id) && NothingNames(EntryOf(peers, id).lastSeen, events, id)
    ensures Reaches(peers, events, id, EntryOf(peers, id).publicIp, events)
  {
    var seen := EntryOf(peers, id).lastSeen;
    forall k | 0 <= k < |events|
      ensures Mute(events[k], id, seen)
    {
      if events[k].Beat? && events[k].peer == id && events[k].beat.ts >= seen {
        assert Live(seen, events, id, events[k].beat);
      }
    }
    AddressKept(peers, events, id, seen);
  }

  /** `g` first, which keeps out every heartbeat that names an address. */
  lemma PriorSilenced(peers: map<Id, PeerStatus>, events: seq<Event>, id: Id, g: Heartbeat) returns (p: seq<Event>)
    requires !AddressObserved(events, id) && Silences(EntryOf(peers, id).lastSeen, events, id, g)
    ensures Reaches(peers, events, id, EntryOf(peers, id).publicIp, p)
  {
    var seen := EntryOf(peers, id).lastSeen;
    var rest := MoveFirst(events, Beat(id, g));
    forall k | 0 <= k < |rest|
      ensures Mute(rest[k], id, g.ts)
    {
      var i :| 0 <= i < |events| && events[i] == rest[k];
      if rest[k].Beat? && rest[k].peer == id && rest[k].beat.ts >= seen {
        assert Live(seen, events, id, rest[k].beat);
      }
    }
    RunSum(peers, [Beat(id, g)], rest);
    assert Run(peers, [Beat(id, g)]) == Applied(peers, Beat(id, g)) by {
      assert [Beat(id, g)][..0] == [];
    }
    AddressKept(Run(peers, [Beat(id, g)]), rest, id, g.ts);
    p := [Beat(id, g)] + rest;
  }

  lemma PossibleIsReached(peers: map<Id, PeerStatus>, events: seq<Event>, id: Id, ip: Option<string>)
    returns (p: seq<Event>)
    requires PossibleAddress(EntryOf(peers, id), events, id, ip)
    ensures Reaches(peers, events, id, ip, p)
  {
    var seen := EntryOf(peers, id).lastSeen;
    if ip.Some? && exists k :: 0 <= k < |events| && Names(events[k], id, ip.value) {
      var k :| 0 <= k < |events| && Names(events[k], id, ip.value);
      p := ObservedLast(peers, events, id, ip.value, k);
    } else if h :| CanSpeakLast(seen, events, id, h) && h.publicIp == ip {
      if NewestNaming(seen, events, id, h) {
        p := NewestNamingReached(peers, events, id, h);
      } else {
        var g :| Silences(seen, events, id, g);
        p := SilencedAfter(peers, events, id, h, g);
      }
    } else if NothingNames(seen, events, id) {
      p := events;
      PriorKept(peers, events, id);
    } else {
      var g :| Silences(seen, events, id, g);
      p := PriorSilenced(peers, events, id, g);
    }
  }

  lemma ObservedInOrder(p: seq<Event>, q: seq<Event>, id: Id)
    requires multiset(p) == multiset(q)
    ensures AddressObserved(p, id) ==> AddressObserved(q, id)
  {
    if AddressObserved(p, id) {
      var k :| 0 <= k < |p| && NamesSome(p[k], id);
      SameEvents(p, q, p[k]);
      var i :| 0 <= i < |q| && q[i] == p[k];
    }
  }

  lemma PossibleInOrder(before: PeerStatus, p: seq<Event>, q: seq<Event>, id: Id, ip: Option<string>)
    requires multiset(p) == multiset(q) && PossibleAddress(before, p, id, ip)
    ensures PossibleAddress(before, q, id, ip)
  {
    var seen := before.lastSeen;
    forall ev ensures ev in p <==> ev in q {
      SameEvents(p, q, ev);
    }
    forall h ensures Live(seen, p, id, h) <==> Live(seen, q, id, h) {
    }
    forall g ensures Silences(seen, p, id, g) <==> Silences(seen, q, id, g) {
    }
    if ip.Some? && exists k :: 0 <= k < |p| && Names(p[k], id, ip.value) {
      var k :| 0 <= k < |p| && Names(p[k], id, ip.value);
      assert p[k] in q;
    } else if h :| CanSpeakLast(seen, p, id, h) && h.publicIp == ip {
      assert NewestNaming(seen, p, id, h) ==> NewestNaming(seen, q, id, h);
      assert CanSpeakLast(seen, q, id, h);
    } else {
      ObservedInOrder(q, p, id);
    }
  }

  /** The possible addresses are exactly those that some delivery order ends with. */
  lemma PossibleExactlyWhenReached(peers: map<Id, PeerStatus>, events: seq<Event>, id: Id, ip: Option<string>)
    ensures PossibleAddress(EntryOf(peers, id), events, id, ip) <==> exists p :: Reaches(peers, events, id, ip, p)
  {
    if PossibleAddress(EntryOf(peers, id), events, id, ip) {
      var p := PossibleIsReached(peers, events, id, ip);
    }
    if p :| Reaches(peers, events, id, ip, p) {
      EndsOnPossible(peers, p, id);
      PossibleInOrder(EntryOf(peers, id), p, events, id, ip);
    }
  }

  ghost predicate SameAddressInEveryOrder(peers: map<Id, PeerStatus>, events: seq<Event>, id: Id) {
    forall p, q :: multiset(p) == multiset(events) && multiset(q) == multiset(events) ==>
      EntryOf(Run(peers, p), id).publicIp == EntryOf(Run(peers, q), id).publicIp
  }

  ghost predicate OnlyOnePossible(before: PeerStatus, events: seq<Event>, id: Id) {
    forall a, b :: PossibleAddress(before, events, id, a) && PossibleAddress(before, events, id, b) ==> a == b
  }

  /** Every delivery order leaves a peer with the same public address exactly when only one
      is possible. */
  lemma AddressOrderMattersOnlyForChoices(peers: map<Id, PeerStatus>, events: seq<Event>, id: Id)
    ensures SameAddressInEveryOrder(peers, events, id) <==>
            OnlyOnePossible(EntryOf(peers, id), events, id)
  {
    var before := EntryOf(peers, id);
    if SameAddressInEveryOrder(peers, events, id) {
      forall a, b | PossibleAddress(before, events, id, a) && PossibleAddress(before, events, id, b)
        ensures a == b
      {
        var p := PossibleIsReached(peers, events, id, a);
        var q := PossibleIsReached(peers, events, id, b);
      }
    } else {
      var p, q :| multiset(p) == multiset(events) && multiset(q) == multiset(events)
        && EntryOf(Run(peers, p), id).publicIp != EntryOf(Run(peers, q), id).publicIp;
      EndsOnPossible(peers, p, id);
      EndsOnPossible(peers, q, id);
      PossibleInOrder(before, p, events, id, EntryOf(Run(peers, p), id).publicIp);
      PossibleInOrder(before, q, events, id, EntryOf(Run(peers, q), id).publicIp);
    }
  }

  /** Choices are real: a heartbeat without an address keeps the address of an earlier one,
      and ignores the address of an older one that is delivered later. */
  lemma PublicAddressDependsOnOrder(id: Id, name: string, ip: string)
    ensures var a := Beat(id, Heartbeat(name, Some(ip), false, false, 1));
            var b := Beat(id, Heartbeat(name, None, false, false, 2));
            && EntryOf(Run(map[], [a, b]), id).publicIp == Some(ip)
            && EntryOf(Run(map[], [b, a]), id).publicIp == None
  {
    var a := Beat(id, Heartbeat(name, Some(ip), false, false, 1));
    var b := Beat(id, Heartbeat(name, None, false, false, 2));
    assert [a, b][..1] == [a] && [a][..0] == [];
    assert [b, a][..1] == [b] && [b][..0] == [];
    assert Run(map[], [a]) == Applied(map[], a);
    assert Run(map[], [b]) == Applied(map[], b);
    assert Run(map[], [a, b]) == Applied(Applied(map[], a), b);
    assert Run(map[], [b, a]) == Applied(Applied(map[], b), a);
  }
}
