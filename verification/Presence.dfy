/** What the interface shows about each peer, merged from heartbeats that gossip delivers
    in any order and from observations of live connections. */
module Presence {
  import opened Basics

  type Id = nat

  /** A verified heartbeat: what the peer says about itself, and when it said so. */
  datatype Heartbeat = Heartbeat(
    hostname: string, publicIp: Option<string>, accessDisabled: bool, hidden: bool, ts: nat)

  datatype Connection = Connection(
    observedAddr: Option<string>, direct: Option<bool>, localIp: Option<string>,
    publicIp: Option<string>, online: bool)

  datatype PeerStatus = PeerStatus(
    hostname: Option<string>, location: Option<string>, virtualIp: Option<Ip>,
    localIp: Option<string>, publicIp: Option<string>, observedAddr: Option<string>,
    direct: Option<bool>, accessDisabled: bool, hidden: bool, lastSeen: nat, online: bool)

  const UNKNOWN := PeerStatus(None, None, None, None, None, None, None, false, false, 0, false)

  const LAST_SEEN_JUMP_MS := 600000

  // ----- one peer -----

  function Prefer<T>(offered: Option<T>, current: Option<T>): Option<T> {
    if offered.Some? then offered else current
  }

  /** A peer's status after a heartbeat: one older than the newest known is ignored. */
  function Heard(e: PeerStatus, h: Heartbeat): PeerStatus {
    if h.ts < e.lastSeen then e
    else e.(lastSeen := h.ts, hostname := Some(h.hostname), accessDisabled := h.accessDisabled,
            hidden := h.hidden, publicIp := Prefer(h.publicIp, e.publicIp))
  }

  /** A peer's status after an observation of its connection. */
  function Observed(e: PeerStatus, c: Connection): PeerStatus {
    e.(online := c.online, direct := c.direct, observedAddr := Prefer(c.observedAddr, e.observedAddr),
       localIp := Prefer(c.localIp, e.localIp), publicIp := Prefer(c.publicIp, e.publicIp))
  }

  /** Nothing but the time of a known peer moved, and that by no more than ten minutes. */
  predicate Routine(before: PeerStatus, after: PeerStatus) {
    && before.lastSeen > 0
    && after == before.(lastSeen := after.lastSeen)
    && before.lastSeen <= after.lastSeen <= before.lastSeen + 10 * 60 * 1000
  }

  function EntryOf(peers: map<Id, PeerStatus>, id: Id): PeerStatus {
    if id in peers then peers[id] else UNKNOWN
  }

  /** A peer nothing is known of: no name, no address, not hidden, never seen, not online. */
  lemma UnknownIsBlank(id: Id)
    ensures var e := EntryOf(map[], id);
            && e.hostname == None && e.location == None && e.virtualIp == None && e.localIp == None
            && e.publicIp == None && e.observedAddr == None && e.direct == None
            && !e.accessDisabled && !e.hidden && e.lastSeen == 0 && !e.online
  {
  }

  class PresenceTracker {
    var peers: map<Id, PeerStatus>

    constructor ()
      ensures peers == map[]
    {
      peers := map[];
    }

    /** Returns false exactly when the peer's status changed in no way worth a redraw. */
    method RecordHeartbeat(id: Id, h: Heartbeat) returns (changed: bool)
      modifies this
      ensures peers == old(peers)[id := Heard(EntryOf(old(peers), id), h)]
      ensures changed == !Routine(EntryOf(old(peers), id), peers[id])
    {
      if id !in peers {
        peers := peers[id := UNKNOWN];
      }
      var e := peers[id];
      if h.ts < e.lastSeen {
        return false;
      }
      changed := || e.lastSeen == 0
                 || h.ts - e.lastSeen > LAST_SEEN_JUMP_MS
                 || e.hostname != Some(h.hostname)
                 || e.accessDisabled != h.accessDisabled
                 || e.hidden != h.hidden;
      e := e.(lastSeen := h.ts, hostname := Some(h.hostname), accessDisabled := h.accessDisabled, hidden := h.hidden);
      if h.publicIp.Some? && e.publicIp != h.publicIp {
        e := e.(publicIp := h.publicIp);
        changed := true;
      }
      peers := peers[id := e];
    }

    /** Seeds a peer's last-seen time; it never moves back. */
    method SetLastSeen(id: Id, ts: nat)
      modifies this
      ensures id in peers && peers == old(peers)[id := peers[id]]
      ensures peers[id] == EntryOf(old(peers), id).(lastSeen := peers[id].lastSeen)
      ensures peers[id].lastSeen >= ts && peers[id].lastSeen >= EntryOf(old(peers), id).lastSeen
      ensures peers[id].lastSeen in {ts, EntryOf(old(peers), id).lastSeen}
    {
      if id !in peers {
        peers := peers[id := UNKNOWN];
      }
      if ts > peers[id].lastSeen {
        peers := peers[id := peers[id].(lastSeen := ts)];
      }
    }

    /** Returns whether anything but the observed address changed. */
    method RecordConnection(id: Id, c: Connection) returns (changed: bool)
      modifies this
      ensures peers == old(peers)[id := Observed(EntryOf(old(peers), id), c)]
      ensures changed == (peers[id].(observedAddr := None) != EntryOf(old(peers), id).(observedAddr := None))
    {
      if id !in peers {
        peers := peers[id := UNKNOWN];
      }
      var e := peers[id];
      changed := e.online != c.online || e.direct != c.direct;
      e := e.(online := c.online, direct := c.direct);
      if c.observedAddr.Some? {
        e := e.(observedAddr := c.observedAddr);
      }
      if c.localIp.Some? && e.localIp != c.localIp {
        e := e.(localIp := c.localIp);
        changed := true;
      }
      if c.publicIp.Some? && e.publicIp != c.publicIp {
        e := e.(publicIp := c.publicIp);
        changed := true;
      }
      peers := peers[id := e];
    }
  }

  // ----- runs of the tracker -----

  datatype Event = Beat(peer: Id, beat: Heartbeat) | Observation(peer: Id, connection: Connection)

  function Applied(peers: map<Id, PeerStatus>, ev: Event): map<Id, PeerStatus> {
    match ev
    case Beat(id, h) => peers[id := Heard(EntryOf(peers, id), h)]
    case Observation(id, c) => peers[id := Observed(EntryOf(peers, id), c)]
  }

  function Run(peers: map<Id, PeerStatus>, events: seq<Event>): map<Id, PeerStatus> {
    if events == [] then peers else Applied(Run(peers, events[..|events| - 1]), events[|events| - 1])
  }

  /** What a heartbeat decides about a peer. `publicIp` is not part of it. */
  datatype Profile = Profile(lastSeen: nat, hostname: Option<string>, accessDisabled: bool, hidden: bool)

  function ProfileOf(e: PeerStatus): Profile {
    Profile(e.lastSeen, e.hostname, e.accessDisabled, e.hidden)
  }

  function Advertised(h: Heartbeat): Profile {
    Profile(h.ts, Some(h.hostname), h.accessDisabled, h.hidden)
  }

  /** `h` is among the newest heartbeats of `id`, and not older than `seen`. */
  ghost predicate Newest(seen: nat, events: seq<Event>, id: Id, h: Heartbeat) {
    && Beat(id, h) in events && h.ts >= seen
    && forall g :: Beat(id, g) in events ==> g.ts <= h.ts
  }

  ghost predicate AllStale(seen: nat, events: seq<Event>, id: Id) {
    forall g :: Beat(id, g) in events ==> g.ts < seen
  }

  /** What `id` ends up with: a newest heartbeat, or what it had if all were stale. */
  ghost predicate Settled(before: PeerStatus, events: seq<Event>, id: Id, after: PeerStatus) {
    || (AllStale(before.lastSeen, events, id) && ProfileOf(after) == ProfileOf(before))
    || exists h :: Newest(before.lastSeen, events, id, h) && ProfileOf(after) == Advertised(h)
  }

  lemma {:induction false} NewestWins(peers: map<Id, PeerStatus>, events: seq<Event>, id: Id)
    ensures Settled(EntryOf(peers, id), events, id, EntryOf(Run(peers, events), id))
  {
    var before := EntryOf(peers, id);
    if events == [] {
      assert AllStale(before.lastSeen, events, id);
    } else {
      var n := |events| - 1;
      NewestWins(peers, events[..n], id);
      assert events == events[..n] + [events[n]];
      SettledStep(before, events[..n], id, EntryOf(Run(peers, events[..n]), id), events[n],
                  EntryOf(Run(peers, events), id));
    }
  }

  lemma SettledStep(before: PeerStatus, events: seq<Event>, id: Id, mid: PeerStatus, ev: Event, after: PeerStatus)
    requires Settled(before, events, id, mid)
    requires after == if ev.peer != id then mid
                      else if ev.Beat? then Heard(mid, ev.beat) else Observed(mid, ev.connection)
    ensures Settled(before, events + [ev], id, after)
  {
    var all := events + [ev];
    if ev.Beat? && ev.peer == id && ev.beat.ts >= mid.lastSeen {
      assert Newest(before.lastSeen, all, id, ev.beat);
    } else if AllStale(before.lastSeen, events, id) && ProfileOf(mid) == ProfileOf(before) {
      assert AllStale(before.lastSeen, all, id);
    } else {
      var h :| Newest(before.lastSeen, events, id, h) && ProfileOf(mid) == Advertised(h);
      assert Newest(before.lastSeen, all, id, h);
    }
  }

  /** Heartbeats of `id` that could be the last word agree on what they say. */
  ghost predicate Unanimous(seen: nat, events: seq<Event>, id: Id) {
    forall g, h :: Newest(seen, events, id, g) && Newest(seen, events, id, h) ==> Advertised(g) == Advertised(h)
  }

  ghost predicate SameInEveryOrder(peers: map<Id, PeerStatus>, events: seq<Event>, id: Id) {
    forall p, q :: multiset(p) == multiset(events) && multiset(q) == multiset(events) ==>
      ProfileOf(EntryOf(Run(peers, p), id)) == ProfileOf(EntryOf(Run(peers, q), id))
  }

  lemma SameEvents(p: seq<Event>, q: seq<Event>, ev: Event)
    requires multiset(p) == multiset(q)
    ensures ev in p <==> ev in q
  {
    assert ev in multiset(p) <==> ev in multiset(q);
  }

  lemma SettledInOrder(before: PeerStatus, p: seq<Event>, q: seq<Event>, id: Id, after: PeerStatus)
    requires multiset(p) == multiset(q) && Settled(before, p, id, after)
    ensures Settled(before, q, id, after)
  {
    forall h ensures Beat(id, h) in p <==> Beat(id, h) in q {
      SameEvents(p, q, Beat(id, h));
    }
    if !(AllStale(before.lastSeen, p, id) && ProfileOf(after) == ProfileOf(before)) {
      var h :| Newest(before.lastSeen, p, id, h) && ProfileOf(after) == Advertised(h);
      assert Newest(before.lastSeen, q, id, h);
    }
  }

  /** The same events with one heartbeat moved to the end. */
  lemma MoveLast(events: seq<Event>, ev: Event) returns (moved: seq<Event>)
    requires ev in events
    ensures multiset(moved) == multiset(events) && moved != [] && moved[|moved| - 1] == ev
  {
    var i :| 0 <= i < |events| && events[i] == ev;
    moved := events[..i] + events[i + 1..] + [ev];
    assert events == events[..i] + [ev] + events[i + 1..];
  }

  /** Delivered last, a newest heartbeat decides. */
  lemma LastWord(peers: map<Id, PeerStatus>, events: seq<Event>, id: Id, h: Heartbeat) returns (p: seq<Event>)
    requires Newest(EntryOf(peers, id).lastSeen, events, id, h)
    ensures multiset(p) == multiset(events)
    ensures ProfileOf(EntryOf(Run(peers, p), id)) == Advertised(h)
  {
    p := MoveLast(events, Beat(id, h));
    var n := |p| - 1;
    NewestWins(peers, p[..n], id);
    forall g | Beat(id, g) in p[..n] ensures g.ts <= h.ts {
      SameEvents(p, events, Beat(id, g));
    }
    assert EntryOf(Run(peers, p[..n]), id).lastSeen <= h.ts;
  }

  /** Every delivery order of the same heartbeats and observations leaves a peer with the
      same profile exactly when its newest heartbeats agree. */
  lemma OrderMattersOnlyForTies(peers: map<Id, PeerStatus>, events: seq<Event>, id: Id)
    ensures SameInEveryOrder(peers, events, id) <==> Unanimous(EntryOf(peers, id).lastSeen, events, id)
  {
    var before := EntryOf(peers, id);
    if Unanimous(before.lastSeen, events, id) {
      forall p, q | multiset(p) == multiset(events) && multiset(q) == multiset(events)
        ensures ProfileOf(EntryOf(Run(peers, p), id)) == ProfileOf(EntryOf(Run(peers, q), id))
      {
        NewestWins(peers, p, id);
        NewestWins(peers, q, id);
        SettledInOrder(before, p, events, id, EntryOf(Run(peers, p), id));
        SettledInOrder(before, q, events, id, EntryOf(Run(peers, q), id));
      }
    }
    if SameInEveryOrder(peers, events, id) {
      forall g, h | Newest(before.lastSeen, events, id, g) && Newest(before.lastSeen, events, id, h)
        ensures Advertised(g) == Advertised(h)
      {
        var p := LastWord(peers, events, id, g);
        var q := LastWord(peers, events, id, h);
      }
    }
  }

  /** In particular when no two different heartbeats of the peer carry the same time. */
  lemma DistinctTimesCommute(peers: map<Id, PeerStatus>, events: seq<Event>, id: Id)
    requires forall g, h :: Beat(id, g) in events && Beat(id, h) in events && g.ts == h.ts ==> g == h
    ensures SameInEveryOrder(peers, events, id)
  {
    OrderMattersOnlyForTies(peers, events, id);
  }

  // ----- what observations decide -----

  predicate Observes(ev: Event, id: Id) {
    ev.Observation? && ev.peer == id
  }

  /** Whether a peer is online, and directly, is what its last observation said. */
  lemma {:induction false} OnlineIsLastObserved(peers: map<Id, PeerStatus>, events: seq<Event>, id: Id, k: int)
    requires -1 <= k < |events| && (k >= 0 ==> Observes(events[k], id))
    requires forall j :: k < j < |events| ==> !Observes(events[j], id)
    ensures var before, after := EntryOf(peers, id), EntryOf(Run(peers, events), id);
            && after.online == (if k < 0 then before.online else events[k].connection.online)
            && after.direct == (if k < 0 then before.direct else events[k].connection.direct)
  {
    if events != [] {
      var n := |events| - 1;
      if k < n {
        OnlineIsLastObserved(peers, events[..n], id, k);
      }
    }
  }

  /** The local address is the last one observed; an observation without one keeps it. */
  lemma {:induction false} LocalAddressIsLastObserved(peers: map<Id, PeerStatus>, events: seq<Event>, id: Id, k: int)
    requires -1 <= k < |events| && (k >= 0 ==> Observes(events[k], id) && events[k].connection.localIp.Some?)
    requires forall j :: k < j < |events| ==> !(Observes(events[j], id) && events[j].connection.localIp.Some?)
    ensures EntryOf(Run(peers, events), id).localIp
            == if k < 0 then EntryOf(peers, id).localIp else events[k].connection.localIp
  {
    if events != [] {
      var n := |events| - 1;
      if k < n {
        LocalAddressIsLastObserved(peers, events[..n], id, k);
      }
    }
  }

  /** So is the address the peer was seen at. */
  lemma {:induction false} SeenAtIsLastObserved(peers: map<Id, PeerStatus>, events: seq<Event>, id: Id, k: int)
    requires -1 <= k < |events| && (k >= 0 ==> Observes(events[k], id) && events[k].connection.observedAddr.Some?)
    requires forall j :: k < j < |events| ==> !(Observes(events[j], id) && events[j].connection.observedAddr.Some?)
    ensures EntryOf(Run(peers, events), id).observedAddr
            == if k < 0 then EntryOf(peers, id).observedAddr else events[k].connection.observedAddr
  {
    if events != [] {
      var n := |events| - 1;
      if k < n {
        SeenAtIsLastObserved(peers, events[..n], id, k);
      }
    }
  }

  /** Neither heartbeats nor observations touch what others tell about a peer, nor any other
      peer. */
  lemma {:induction false} NothingElseChanges(peers: map<Id, PeerStatus>, events: seq<Event>, id: Id)
    ensures var before, after := EntryOf(peers, id), EntryOf(Run(peers, events), id);
            && after.location == before.location && after.virtualIp == before.virtualIp
            && ((forall j :: 0 <= j < |events| ==> events[j].peer != id) ==>
                  after == before && (id in Run(peers, events) <==> id in peers))
  {
    if events != [] {
      NothingElseChanges(peers, events[..|events| - 1], id);
    }
  }
}
