/** The one-way block in terms of packets: which packets of ours let which packets in. */
module OneWay {
  import opened Basics
  import opened Packets
  import opened Conntrack

  // ----- the bytes -----

  /** Length in bytes of the IP header. */
  function Ihl(p: seq<u8>): nat
    requires |p| >= 20
  {
    p[0] % 16 * 4
  }

  /** The block can tell which flow a packet belongs to. */
  predicate Parses(p: seq<u8>) {
    |p| >= 20 && p[0] / 16 == 4 && 20 <= Ihl(p) <= |p|
  }

  predicate HasPorts(p: seq<u8>)
    requires Parses(p)
  {
    (p[9] == 6 || p[9] == 17) && Ihl(p) + 4 <= |p|
  }

  /** A TCP packet whose flag byte has SYN set and ACK clear. */
  predicate IsClientSyn(p: seq<u8>) {
    && |p| >= 20 && p[0] / 16 == 4 && p[9] == 6 && Ihl(p) + 13 < |p|
    && p[Ihl(p) + 13] / 0x02 % 2 == 1 && p[Ihl(p) + 13] / 0x10 % 2 == 0
  }

  lemma InitiationIsClientSyn(p: seq<u8>)
    ensures IsTcpInitiation(p) <==> IsClientSyn(p)
  {
  }

  // ----- what opens a flow -----

  /** What we sent on flow `k` since the last clear answers, or goes on with, what others
      opened: no client SYN is among it. */
  ghost predicate OnlyAnswered(h: seq<Event>, k: FlowKey) {
    forall m :: 0 <= m < |h| && Touches(h[m], k) && (forall j :: m < j < |h| ==> !h[j].Cleared?) ==>
      !IsClientSyn(h[m].pkt)
  }

  /** Answering an inbound TCP connection never lets its packets in, whatever sweeps ran. */
  lemma AnsweringOpensNothing(h: seq<Event>, pkt: seq<u8>, now: nat)
    requires FlowKeyOf(pkt).Some? && FlowKeyOf(pkt).value.proto == 6
    requires OnlyAnswered(h, Reversed(FlowKeyOf(pkt).value))
    ensures !IsReturnTraffic(h, pkt, now)
  {
    if IsReturnTraffic(h, pkt, now) {
      var i, j := AdmittedWasSolicited(h, pkt, now);
      InitiationIsClientSyn(h[i].pkt);
      assert false;
    }
  }

  /** A client SYN, or any packet that is not TCP, lets its answers in for two minutes,
      whatever happened before. */
  lemma OpeningLetsAnswersIn(h: seq<Event>, p: seq<u8>, at: nat, reply: seq<u8>, now: nat)
    requires FlowKeyOf(p).Some? && FlowKeyOf(reply) == Some(Reversed(FlowKeyOf(p).value))
    requires p[9] != 6 || IsClientSyn(p)
    requires now <= at + 120_000
    ensures IsReturnTraffic(h + [Sent(p, at)], reply, now)
  {
    var k := FlowKeyOf(p).value;
    InitiationIsClientSyn(p);
    EstablishedNext(h, Sent(p, at), k);
    assert Reversed(Reversed(k)) == k;
  }

  // ----- addresses and ports -----

  /** Packets that are not IPv4, or are cut off, are kept out. */
  lemma UnparsedIsKeptOut(h: seq<Event>, pkt: seq<u8>, now: nat)
    requires !Parses(pkt)
    ensures !IsReturnTraffic(h, pkt, now)
  {
  }

  /** `q` answers `p` as far as addresses, protocol and ports go. A packet without ports
      counts as one with ports 0. */
  predicate Mirrors(p: seq<u8>, q: seq<u8>) {
    && Parses(p) && Parses(q)
    && q[9] == p[9] && q[12..16] == p[16..20] && q[16..20] == p[12..16]
    && PortBytes(q, 0) == PortBytes(p, 2) && PortBytes(q, 2) == PortBytes(p, 0)
  }

  /** The source port (`at` 0) or the destination port (`at` 2), as bytes. */
  function PortBytes(p: seq<u8>, at: nat): seq<u8>
    requires Parses(p) && at <= 2
  {
    if HasPorts(p) then p[Ihl(p) + at..Ihl(p) + at + 2] else [0, 0]
  }

  function PortValue(bytes: seq<u8>): u16
    requires |bytes| == 2
  {
    Be16(bytes[0], bytes[1])
  }

  lemma SamePort(x: seq<u8>, y: seq<u8>)
    requires |x| == |y| == 2
    ensures PortValue(x) == PortValue(y) <==> x == y
  {
    assert x == [x[0], x[1]] && y == [y[0], y[1]];
  }

  function Quad(p: seq<u8>, i: nat): Ip
    requires i + 4 <= |p|
  {
    Ip(p[i], p[i + 1], p[i + 2], p[i + 3])
  }

  lemma SameQuad(p: seq<u8>, i: nat, q: seq<u8>, j: nat)
    requires i + 4 <= |p| && j + 4 <= |q|
    ensures Quad(p, i) == Quad(q, j) <==> p[i..i + 4] == q[j..j + 4]
  {
    assert p[i..i + 4] == [p[i], p[i + 1], p[i + 2], p[i + 3]];
    assert q[j..j + 4] == [q[j], q[j + 1], q[j + 2], q[j + 3]];
  }

  lemma TwoPortBytes(p: seq<u8>, at: nat)
    requires Parses(p) && at <= 2
    ensures |PortBytes(p, at)| == 2
    ensures HasPorts(p) ==> PortBytes(p, at)[0] == p[Ihl(p) + at] && PortBytes(p, at)[1] == p[Ihl(p) + at + 1]
  {
  }

  /** The flow of a packet, read off its bytes. */
  predicate IsKeyOf(p: seq<u8>, k: FlowKey)
    requires Parses(p)
  {
    && k.src == Quad(p, 12) && k.dst == Quad(p, 16) && k.proto == p[9]
    && |PortBytes(p, 0)| == 2 && k.srcPort == PortValue(PortBytes(p, 0))
    && |PortBytes(p, 2)| == 2 && k.dstPort == PortValue(PortBytes(p, 2))
  }

  lemma FlowKeyBytes(p: seq<u8>)
    requires Parses(p)
    ensures FlowKeyOf(p).Some? && IsKeyOf(p, FlowKeyOf(p).value)
  {
    TwoPortBytes(p, 0);
    TwoPortBytes(p, 2);
  }

  lemma OppositeKeys(p: seq<u8>, q: seq<u8>, kp: FlowKey, kq: FlowKey)
    requires Parses(p) && Parses(q) && IsKeyOf(p, kp) && IsKeyOf(q, kq)
    ensures kq == Reversed(kp) <==> Mirrors(p, q)
  {
    SamePort(PortBytes(q, 0), PortBytes(p, 2));
    SamePort(PortBytes(q, 2), PortBytes(p, 0));
    SameQuad(q, 12, p, 16);
    SameQuad(q, 16, p, 12);
  }

  /** Two packets belong to opposite directions of one flow exactly when one mirrors the
      other. */
  lemma OppositeExactlyWhenMirrored(p: seq<u8>, q: seq<u8>)
    requires Parses(p) && Parses(q)
    ensures FlowKeyOf(p).Some?
    ensures FlowKeyOf(q) == Some(Reversed(FlowKeyOf(p).value)) <==> Mirrors(p, q)
  {
    FlowKeyBytes(p);
    FlowKeyBytes(q);
    OppositeKeys(p, q, FlowKeyOf(p).value, FlowKeyOf(q).value);
  }

  /** What is admitted mirrors something we sent within two minutes: in particular its source
      port is the destination port of that packet, and the other way round. */
  lemma AdmittedMirrorsOurs(h: seq<Event>, pkt: seq<u8>, now: nat) returns (j: nat)
    requires IsReturnTraffic(h, pkt, now)
    ensures j < |h| && h[j].Sent? && Mirrors(h[j].pkt, pkt) && now <= h[j].at + 120_000
  {
    var i: nat;
    i, j := AdmittedWasSolicited(h, pkt, now);
    var k := FlowKeyOf(pkt).value;
    assert Reversed(Reversed(k)) == k;
    OppositeExactlyWhenMirrored(h[j].pkt, pkt);
  }
}
