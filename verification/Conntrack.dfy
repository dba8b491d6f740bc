/** Connection tracking for the one-way block: the table of flows this device opened,
    tied to the history of what it sent. */
module Conntrack {
  import opened Basics
  import opened Packets

  datatype FlowKey = FlowKey(src: Ip, dst: Ip, proto: u8, srcPort: u16, dstPort: u16)

  function Reversed(k: FlowKey): FlowKey {
    FlowKey(k.dst, k.src, k.proto, k.dstPort, k.srcPort)
  }

  /** The TCP flags byte of an IPv4 TCP packet. */
  function TcpFlags(p: seq<u8>): Option<u8> {
    if !IsIpv4(p) then None
    else if p[9] != 6 || |p| < HeaderLen(p) + 14 then None
    else Some(p[HeaderLen(p) + 13])
  }

  /** SYN without ACK: the sender is opening a connection. */
  predicate IsTcpInitiation(p: seq<u8>) {
    TcpFlags(p).Some? && HasFlag(TcpFlags(p).value, SYN) && !HasFlag(TcpFlags(p).value, ACK)
  }

  /** The 5-tuple of an IPv4 packet; ports are 0 unless TCP or UDP ports are present. */
  function FlowKeyOf(p: seq<u8>): Option<FlowKey> {
    if !IsIpv4(p) then None
    else
      var ihl := HeaderLen(p);
      if ihl < 20 || |p| < ihl then None
      else
        var src := Ip(p[12], p[13], p[14], p[15]);
        var dst := Ip(p[16], p[17], p[18], p[19]);
        if (p[9] == 6 || p[9] == 17) && |p| >= ihl + 4
        then Some(FlowKey(src, dst, p[9], Be16(p[ihl], p[ihl + 1]), Be16(p[ihl + 2], p[ihl + 3])))
        else Some(FlowKey(src, dst, p[9], 0, 0))
  }

  /** `q` goes back the way `p` came: addresses and, where there are any, ports swapped. */
  predicate Answers(p: seq<u8>, q: seq<u8>) {
    && IsIpv4(p) && IsIpv4(q)
    && 20 <= HeaderLen(p) && HeaderLen(p) + 4 <= |p| && 20 <= HeaderLen(q) && HeaderLen(q) + 4 <= |q|
    && q[9] == p[9] && q[12..16] == p[16..20] && q[16..20] == p[12..16]
    && (p[9] in {6, 17} ==>
          && q[HeaderLen(q)..HeaderLen(q) + 2] == p[HeaderLen(p) + 2..HeaderLen(p) + 4]
          && q[HeaderLen(q) + 2..HeaderLen(q) + 4] == p[HeaderLen(p)..HeaderLen(p) + 2])
  }

  /** The flow an answer belongs to is the reverse of the flow it answers. */
  lemma AnswersHaveReversedKeys(p: seq<u8>, q: seq<u8>)
    requires Answers(p, q)
    ensures FlowKeyOf(p).Some? && FlowKeyOf(q) == Some(Reversed(FlowKeyOf(p).value))
  {
    assert q[12..16] == [q[12], q[13], q[14], q[15]] && p[16..20] == [p[16], p[17], p[18], p[19]];
    assert q[16..20] == [q[16], q[17], q[18], q[19]] && p[12..16] == [p[12], p[13], p[14], p[15]];
    var i, j := HeaderLen(p), HeaderLen(q);
    assert q[j..j + 2] == [q[j], q[j + 1]] && p[i + 2..i + 4] == [p[i + 2], p[i + 3]];
    assert q[j + 2..j + 4] == [q[j + 2], q[j + 3]] && p[i..i + 2] == [p[i], p[i + 1]];
  }

  const FLOW_TTL_MS: nat := 120_000

  /** `a.saturating_sub(b)`. */
  function SaturatingSub(a: nat, b: nat): nat {
    if a < b then 0 else a - b
  }

  predicate Fresh(seen: nat, now: nat) {
    SaturatingSub(now, seen) <= FLOW_TTL_MS
  }

  // ----- what happened to the table -----

  datatype Event = Sent(pkt: seq<u8>, at: nat) | Swept(at: nat) | Cleared

  /** A packet of flow `k` was sent. */
  predicate Touches(ev: Event, k: FlowKey) {
    ev.Sent? && FlowKeyOf(ev.pkt) == Some(k)
  }

  /** A packet was sent that opens flow `k`: a client SYN, or anything that is not TCP. */
  predicate Opens(ev: Event, k: FlowKey) {
    Touches(ev, k) && (k.proto != 6 || IsTcpInitiation(ev.pkt))
  }

  /** When a packet of flow `k` was last sent (0 if never). */
  ghost function LastSent(h: seq<Event>, k: FlowKey): nat {
    if h == [] then 0
    else if Touches(h[|h| - 1], k) then h[|h| - 1].at
    else LastSent(h[..|h| - 1], k)
  }

  /** Event `m` does not cost flow `k` its entry: no clear, and no sweep that finds the
      flow idle for longer than its lifetime. */
  ghost predicate Spares(h: seq<Event>, m: nat, k: FlowKey)
    requires m < |h|
  {
    !h[m].Cleared? && (h[m].Swept? ==> Fresh(LastSent(h[..m], k), h[m].at))
  }

  /** Event `i` opened flow `k`, and the events after it spare it. */
  ghost predicate OpenSince(h: seq<Event>, k: FlowKey, i: nat) {
    i < |h| && Opens(h[i], k) && forall m :: i < m < |h| ==> Spares(h, m, k)
  }

  /** We opened flow `k`, and nothing since then has dropped it. */
  ghost predicate Established(h: seq<Event>, k: FlowKey) {
    exists i: nat :: OpenSince(h, k, i)
  }

  /** An inbound packet is return traffic: it answers an established flow on which we
      sent something within the lifetime. */
  ghost predicate IsReturnTraffic(h: seq<Event>, pkt: seq<u8>, now: nat) {
    && FlowKeyOf(pkt).Some?
    && var k := Reversed(FlowKeyOf(pkt).value);
       Established(h, k) && Fresh(LastSent(h, k), now)
  }

  // ----- the table -----

  /** The flow table and, as a ghost, everything that was done to it. */
  class Conntrack {
    var flows: map<FlowKey, nat>
    ghost var history: seq<Event>

    /** The table holds exactly the established flows, each with its last send time. */
    ghost predicate Valid()
      reads this
    {
      forall k :: Holds(flows, history, k)
    }

    constructor ()
      ensures Valid() && history == []
    {
      flows := map[];
      history := [];
    }

    method RecordOutbound(pkt: seq<u8>, now: nat)
      requires Valid()
      modifies this
      ensures Valid() && history == old(history) + [Sent(pkt, now)]
    {
      ghost var before := flows;
      var key := FlowKeyOf(pkt);
      if key.Some? {
        var k := key.value;
        if k.proto == 6 {
          if IsTcpInitiation(pkt) {
            flows := flows[k := now];
          } else if k in flows {
            flows := flows[k := now];
          }
        } else {
          flows := flows[k := now];
        }
      }
      forall k
        ensures Holds(flows, history + [Sent(pkt, now)], k)
      {
        AfterSend(before, history, pkt, now, k);
      }
      history := history + [Sent(pkt, now)];
    }

    /** Admits exactly the return traffic of the history. */
    method AllowsInbound(pkt: seq<u8>, now: nat) returns (allowed: bool)
      requires Valid()
      ensures allowed <==> IsReturnTraffic(history, pkt, now)
    {
      var key := FlowKeyOf(pkt);
      if key.None? {
        return false;
      }
      var k := Reversed(key.value);
      assert Holds(flows, history, k);
      allowed := k in flows && SaturatingSub(now, flows[k]) <= FLOW_TTL_MS;
    }

    method Sweep(now: nat)
      requires Valid()
      modifies this
      ensures Valid() && history == old(history) + [Swept(now)]
    {
      ghost var before := flows;
      flows := map k | k in flows && SaturatingSub(now, flows[k]) <= FLOW_TTL_MS :: flows[k];
      forall k
        ensures Holds(flows, history + [Swept(now)], k)
      {
        assert Holds(before, history, k);
        EstablishedNext(history, Swept(now), k);
      }
      history := history + [Swept(now)];
    }

    method Clear()
      modifies this
      ensures Valid() && history == old(history) + [Cleared]
    {
      flows := map[];
      forall k
        ensures Holds(map[], history + [Cleared], k)
      {
        EstablishedNext(history, Cleared, k);
      }
      history := history + [Cleared];
    }
  }

  ghost predicate Holds(flows: map<FlowKey, nat>, h: seq<Event>, k: FlowKey) {
    (k in flows <==> Established(h, k)) && (k in flows ==> flows[k] == LastSent(h, k))
  }

  lemma OpenSinceNext(h: seq<Event>, ev: Event, k: FlowKey, i: nat)
    ensures OpenSince(h + [ev], k, i) <==>
            if i < |h| then OpenSince(h, k, i) && Spares(h + [ev], |h|, k) else i == |h| && Opens(ev, k)
  {
    var h' := h + [ev];
    forall m | 0 <= m < |h|
      ensures Spares(h', m, k) <==> Spares(h, m, k)
    {
      assert h'[..m] == h[..m];
    }
  }

  /** How one more event bears on flow `k`. */
  lemma EstablishedNext(h: seq<Event>, ev: Event, k: FlowKey)
    ensures LastSent(h + [ev], k) == if Touches(ev, k) then ev.at else LastSent(h, k)
    ensures Established(h + [ev], k) <==> Opens(ev, k) || (Established(h, k) && Spares(h + [ev], |h|, k))
  {
    assert (h + [ev])[..|h|] == h;
    if Established(h + [ev], k) {
      var i: nat :| OpenSince(h + [ev], k, i);
      OpenSinceNext(h, ev, k, i);
    }
    OpenSinceNext(h, ev, k, |h|);
    if Established(h, k) {
      var i: nat :| OpenSince(h, k, i);
      OpenSinceNext(h, ev, k, i);
    }
  }

  /** The table after a send: opened if the packet opens the flow, refreshed if the flow
      was there, untouched otherwise. */
  lemma AfterSend(flows: map<FlowKey, nat>, h: seq<Event>, pkt: seq<u8>, now: nat, k: FlowKey)
    requires Holds(flows, h, k)
    ensures Established(h + [Sent(pkt, now)], k) <==> Opens(Sent(pkt, now), k) || k in flows
    ensures LastSent(h + [Sent(pkt, now)], k) == if Touches(Sent(pkt, now), k) then now else LastSent(h, k)
  {
    EstablishedNext(h, Sent(pkt, now), k);
    assert (h + [Sent(pkt, now)])[|h|] == Sent(pkt, now);
  }

  // ----- reading the property in plain terms -----

  /** The last send of a flow that was touched at `i` is some event from `i` on. */
  lemma {:induction false} LastSentAt(h: seq<Event>, k: FlowKey, i: nat) returns (a: nat)
    requires i < |h| && Touches(h[i], k)
    ensures i <= a < |h| && Touches(h[a], k) && h[a].at == LastSent(h, k)
    ensures forall b :: a < b < |h| ==> !Touches(h[b], k)
  {
    var n := |h| - 1;
    if Touches(h[n], k) {
      a := n;
    } else {
      a := LastSentAt(h[..n], k, i);
      assert forall b :: a < b < n ==> h[..n][b] == h[b];
    }
  }

  /** Nothing unsolicited gets in: if a packet is admitted, then since the last clear we
      opened the reverse flow, and within the lifetime we sent something on it. */
  lemma AdmittedWasSolicited(h: seq<Event>, pkt: seq<u8>, now: nat) returns (i: nat, j: nat)
    requires IsReturnTraffic(h, pkt, now)
    ensures i <= j < |h|
    ensures Opens(h[i], Reversed(FlowKeyOf(pkt).value)) && forall m :: i <= m < |h| ==> !h[m].Cleared?
    ensures Touches(h[j], Reversed(FlowKeyOf(pkt).value)) && now <= h[j].at + FLOW_TTL_MS
  {
    var k := Reversed(FlowKeyOf(pkt).value);
    i :| OpenSince(h, k, i);
    forall m | i <= m < |h|
      ensures !h[m].Cleared?
    {
      assert m > i ==> Spares(h, m, k);
    }
    j := LastSentAt(h, k, i);
  }

  predicate TimeOrdered(h: seq<Event>, now: nat) {
    && (forall i, j :: 0 <= i < j < |h| && !h[i].Cleared? && !h[j].Cleared? ==> h[i].at <= h[j].at)
    && (forall i :: 0 <= i < |h| && !h[i].Cleared? ==> h[i].at <= now)
  }

  /** The send at `a` is followed within the lifetime by another one on `k` or by `now`. */
  ghost predicate FollowedUp(h: seq<Event>, k: FlowKey, a: nat, now: nat)
    requires a < |h| && h[a].Sent?
  {
    || now <= h[a].at + FLOW_TTL_MS
    || exists b :: a < b < |h| && Touches(h[b], k) && h[b].at <= h[a].at + FLOW_TTL_MS
  }

  /** From event `i` on, every send on `k` is followed up. */
  ghost predicate KeptAlive(h: seq<Event>, k: FlowKey, i: nat, now: nat) {
    forall a: nat {:trigger FollowedUp(h, k, a, now)} :: i <= a < |h| && Touches(h[a], k) ==> FollowedUp(h, k, a, now)
  }

  lemma LastSentBefore(h: seq<Event>, k: FlowKey, i: nat, m: nat) returns (a: nat)
    requires i < m <= |h| && Touches(h[i], k)
    ensures i <= a < m && Touches(h[a], k) && h[a].at == LastSent(h[..m], k)
    ensures forall b :: a < b < m ==> !Touches(h[b], k)
  {
    a := LastSentAt(h[..m], k, i);
    assert h[a] == h[..m][a];
    assert forall b :: a < b < m ==> h[b] == h[..m][b];
  }

  lemma KeptAliveIsSpared(h: seq<Event>, k: FlowKey, i: nat, now: nat, m: nat)
    requires TimeOrdered(h, now) && i < m < |h| && Touches(h[i], k) && KeptAlive(h, k, i, now)
    requires !h[m].Cleared?
    ensures Spares(h, m, k)
  {
    var a := LastSentBefore(h, k, i, m);
    if h[m].Swept? {
      NotAfter(h, now, m, |h|);
      assert FollowedUp(h, k, a, now);
      if now > h[a].at + FLOW_TTL_MS {
        var b :| a < b < |h| && Touches(h[b], k) && h[b].at <= h[a].at + FLOW_TTL_MS;
        assert !Touches(h[m], k);
        assert m < b;
        NotAfter(h, now, m, b);
      }
      assert h[m].at <= h[a].at + FLOW_TTL_MS;
    }
  }

  lemma NotAfter(h: seq<Event>, now: nat, i: nat, j: nat)
    requires TimeOrdered(h, now) && i < j <= |h| && !h[i].Cleared?
    requires j < |h| ==> !h[j].Cleared?
    ensures h[i].at <= if j < |h| then h[j].at else now
  {
  }

  /** Conversely, a flow we opened and kept alive is still admitted, however many sweeps
      ran in between. */
  lemma KeptAliveIsAdmitted(h: seq<Event>, i: nat, k: FlowKey, pkt: seq<u8>, now: nat)
    requires TimeOrdered(h, now) && i < |h|
    requires FlowKeyOf(pkt).Some? && k == Reversed(FlowKeyOf(pkt).value)
    requires Opens(h[i], k) && KeptAlive(h, k, i, now)
    requires forall m :: i < m < |h| ==> !h[m].Cleared?
    ensures IsReturnTraffic(h, pkt, now)
  {
    forall m | i < m < |h|
      ensures Spares(h, m, k)
    {
      KeptAliveIsSpared(h, k, i, now, m);
    }
    assert OpenSince(h, k, i);
    var a := LastSentAt(h, k, i);
    assert FollowedUp(h, k, a, now);
  }

  // ----- flows that expired -----

  /** Event `m` is no clear, and no sweep later than the lifetime after the last send. */
  ghost predicate Unswept(h: seq<Event>, k: FlowKey, m: nat)
    requires m < |h|
  {
    !h[m].Cleared? && (h[m].Swept? ==> h[m].at <= LastSent(h[..m], k) + FLOW_TTL_MS)
  }

  ghost predicate UnsweptSince(h: seq<Event>, k: FlowKey, i: nat) {
    i < |h| && Opens(h[i], k) && forall m :: i < m < |h| ==> Unswept(h, k, m)
  }

  /** Flow `k` was opened, and nothing swept it away since. */
  ghost predicate NeverSweptAway(h: seq<Event>, k: FlowKey) {
    exists i: nat :: UnsweptSince(h, k, i)
  }

  lemma NeverSweptAwayIs(h: seq<Event>, k: FlowKey)
    ensures NeverSweptAway(h, k) <==> Established(h, k)
  {
    forall m | 0 <= m < |h|
      ensures Spares(h, m, k) <==> Unswept(h, k, m)
    {
    }
    forall i: nat
      ensures UnsweptSince(h, k, i) <==> OpenSince(h, k, i)
    {
    }
  }

  /** A flow that has expired does not let its answers in. One more packet of ours that
      opens nothing lets them in again exactly when the flow was never swept away. */
  lemma ExpiredFlowsReviveUnlessSwept(h: seq<Event>, k: FlowKey, pkt: seq<u8>, at: nat, reply: seq<u8>)
    requires FlowKeyOf(pkt) == Some(k) && FlowKeyOf(reply) == Some(Reversed(k))
    requires !Opens(Sent(pkt, at), k) && at > LastSent(h, k) + FLOW_TTL_MS
    ensures !IsReturnTraffic(h, reply, at)
    ensures IsReturnTraffic(h + [Sent(pkt, at)], reply, at) <==> NeverSweptAway(h, k)
  {
    EstablishedNext(h, Sent(pkt, at), k);
    NeverSweptAwayIs(h, k);
    assert (h + [Sent(pkt, at)])[|h|] == Sent(pkt, at);
    assert Reversed(Reversed(k)) == k;
  }

  /** A TCP packet without options or payload, between two hosts of 10.99.0.0/24. */
  lemma TcpPacket(from: u8, to: u8, srcPort: u8, dstPort: u8, flags: u8) returns (p: seq<u8>)
    ensures FlowKeyOf(p) == Some(FlowKey(Ip(10, 99, 0, from), Ip(10, 99, 0, to), 6, srcPort, dstPort))
    ensures TcpFlags(p) == Some(flags)
  {
    var ip := [0x45, 0, 0, 40, 0, 0, 0, 0, 64, 6, 0, 0, 10, 99, 0, from, 10, 99, 0, to];
    var tcp := [0, srcPort, 0, dstPort, 0, 0, 0, 0, 0, 0, 0, 0, 0x50, flags, 0, 0, 0, 0, 0, 0];
    p := ip + tcp;
    assert p[0] == 0x45 && p[9] == 6 && |p| == 40;
    assert p[20] == tcp[0] && p[21] == tcp[1] && p[22] == tcp[2] && p[23] == tcp[3] && p[33] == tcp[13];
  }

  /** It happens: a SYN at 0 ms and an ACK 200 s later, with no sweep between. The answer is
      kept out before the ACK and let in after it. */
  lemma UnsweptFlowsRevive() returns (syn: seq<u8>, ack: seq<u8>, reply: seq<u8>)
    ensures IsTcpInitiation(syn) && !IsTcpInitiation(ack) && FlowKeyOf(syn).Some? && FlowKeyOf(ack) == FlowKeyOf(syn)
    ensures FlowKeyOf(reply) == Some(Reversed(FlowKeyOf(syn).value))
    ensures !IsReturnTraffic([Sent(syn, 0)], reply, 200_000)
    ensures IsReturnTraffic([Sent(syn, 0), Sent(ack, 200_000)], reply, 200_000)
  {
    syn := TcpPacket(2, 3, 1, 80, SYN);
    ack := TcpPacket(2, 3, 1, 80, ACK);
    reply := TcpPacket(3, 2, 80, 1, ACK);
    OneSynRevives(syn, ack, reply, FlowKeyOf(syn).value);
  }

  lemma OneSynRevives(syn: seq<u8>, ack: seq<u8>, reply: seq<u8>, k: FlowKey)
    requires FlowKeyOf(syn) == Some(k) && FlowKeyOf(ack) == Some(k) && FlowKeyOf(reply) == Some(Reversed(k))
    requires k.proto == 6 && IsTcpInitiation(syn) && !IsTcpInitiation(ack)
    ensures !IsReturnTraffic([Sent(syn, 0)], reply, 200_000)
    ensures IsReturnTraffic([Sent(syn, 0), Sent(ack, 200_000)], reply, 200_000)
  {
    var h := [Sent(syn, 0)];
    assert Opens(h[0], k);
    assert UnsweptSince(h, k, 0);
    assert LastSent(h, k) == 0;
    ExpiredFlowsReviveUnlessSwept(h, k, ack, 200_000, reply);
    assert h + [Sent(ack, 200_000)] == [Sent(syn, 0), Sent(ack, 200_000)];
  }
}
