/** The signed membership roster: the fold that turns a bag of entries into the
    current membership. Signatures and content hashes are parameters. */
module Roster {
  import opened Basics
  import opened Ordering
  import opened Addressing
  import opened Turns

  /** A 32-byte key, read as one big-endian number: array order is numeric order. */
  type Id = nat

  /** A 16-byte invite nonce. */
  type Nonce = nat

  datatype Role = Peer | Controller

  datatype InviteKind = ForPeer | ForController

  datatype InviteCheck = Ok | Spent | Stale

  datatype Op =
    | Add(node: Id, hostname: string, role: Role, virtualIp: Ip, citedNonce: Nonce, ts: nat)
    | Remove(node: Id, ts: nat)
    | SetRole(node: Id, role: Role, ts: nat)
    | SetInvite(kind: InviteKind, nonce: Nonce, singleUse: bool, ts: nat)
    | Freeze(frozen: bool, ts: nat)
    | SetName(name: string, ts: nat)

  datatype Entry = Entry(networkId: Id, signer: Id, op: Op, signature: seq<u8>)

  datatype Config = Config(networkId: Id, originatorId: Id, subnet: Ip)

  /** What the model does not look into: signature verification, the content hash,
      and the latest timestamp accepted by the local clock. */
  datatype Outside = Outside(verified: Entry -> bool, contentId: Entry -> Id, ceiling: nat)

  datatype Member = Member(hostname: string, role: Role, virtualIp: Ip, addedBy: Id)

  datatype Invite = Invite(nonce: Nonce, singleUse: bool)

  /** Everything the fold carries from one entry to the next. */
  datatype State = State(
    members: map<Id, Member>,
    admitted: map<Id, nat>,
    consumed: set<Nonce>,
    frozen: bool,
    name: Option<string>,
    peerInvite: Option<Invite>,
    controllerInvite: Option<Invite>)

  /** The folded roster as callers see it. */
  datatype Roster = Roster(
    members: map<Id, Member>,
    frozen: bool,
    name: Option<string>,
    peerInvite: Option<Invite>,
    controllerInvite: Option<Invite>,
    peerInviteSpent: bool,
    controllerInviteSpent: bool)

  const EMPTY := State(map[], map[], {}, false, None, None, None)

  // ----- reading a roster -----

  function CurrentInvite(r: Roster, kind: InviteKind): Option<Invite> {
    if kind.ForPeer? then r.peerInvite else r.controllerInvite
  }

  /** Would a join citing `nonce` be accepted, and if not, why not. */
  function CheckInvite(r: Roster, kind: InviteKind, nonce: Nonce): InviteCheck {
    var spent := if kind.ForPeer? then r.peerInviteSpent else r.controllerInviteSpent;
    match CurrentInvite(r, kind)
    case None => Stale
    case Some(cur) =>
      if nonce != cur.nonce then Stale
      else if cur.singleUse && spent then Spent
      else Ok
  }

  function RoleOf(r: Roster, id: Id): Role {
    if id in r.members then r.members[id].role else Peer
  }

  /** The hosts the members of a roster occupy. */
  function Occupied(members: map<Id, Member>): set<nat> {
    set id | id in members :: members[id].virtualIp.d as nat
  }

  /** The first free host from `h` on, or .254 when there is none. */
  function FirstFree(taken: set<nat>, h: nat): (f: nat)
    requires h <= 255
    ensures f <= 254
    ensures (forall k :: h <= k <= 254 ==> k in taken) ==> f == 254
    ensures (exists k :: h <= k <= 254 && k !in taken) ==> h <= f <= 254 && f !in taken
    ensures forall k :: h <= k < f ==> k in taken
    decreases 255 - h
  {
    if h >= 255 then 254
    else if h !in taken then h
    else FirstFree(taken, h + 1)
  }

  function LowestFreeHost(r: Roster, subnet: Ip): (ip: Ip)
  {
    var host := FirstFree(Occupied(r.members), 2);
    Ip(subnet.a, subnet.b, subnet.c, host)
  }

  // ----- the rules, one entry at a time -----

  function KindFor(role: Role): InviteKind {
    if role.Peer? then ForPeer else ForController
  }

  function InviteFor(s: State, role: Role): Option<Invite> {
    if role.Peer? then s.peerInvite else s.controllerInvite
  }

  predicate IsController(s: State, id: Id) {
    id in s.members && s.members[id].role.Controller?
  }

  /** The invite gate a Controller's admission must pass. */
  predicate InviteOpens(s: State, role: Role, cited: Nonce) {
    match InviteFor(s, role)
    case None => false
    case Some(inv) => cited == inv.nonce && !(inv.singleUse && inv.nonce in s.consumed)
  }

  /** Who may do what, given the state the earlier entries left. */
  predicate Authorized(orig: Id, s: State, e: Entry) {
    var byOriginator := e.signer == orig;
    var byController := IsController(s, e.signer);
    match e.op
    case Freeze(_, _) => byOriginator
    case Remove(node, _) => byOriginator || (byController && node in s.members && s.members[node].role.Peer?)
    case SetRole(node, _, _) => byOriginator && node in s.members
    case SetInvite(kind, _, _, _) => byOriginator || (kind.ForPeer? && byController)
    case SetName(_, _) => byOriginator || byController
    case Add(_, _, role, _, cited, ts) =>
      !s.frozen && (byOriginator ||
                    (byController && e.signer in s.admitted && s.admitted[e.signer] <= ts
                     && InviteOpens(s, role, cited)))
  }

  /** An admission that uses up a single-use invite. */
  predicate UsesUpInvite(orig: Id, s: State, e: Entry) {
    && e.op.Add?
    && e.signer != orig
    && Authorized(orig, s, e)
    && InviteFor(s, e.op.role).Some?
    && InviteFor(s, e.op.role).value.singleUse
  }

  /** What an authorized entry changes. */
  function Effect(orig: Id, s: State, e: Entry): State {
    match e.op
    case Freeze(frozen, _) => s.(frozen := frozen)
    case Remove(node, _) => s.(members := s.members - {node}, admitted := s.admitted - {node})
    case SetRole(node, role, _) =>
      if node in s.members then s.(members := s.members[node := s.members[node].(role := role)]) else s
    case SetInvite(kind, nonce, singleUse, _) =>
      if kind.ForPeer? then s.(peerInvite := Some(Invite(nonce, singleUse)))
      else s.(controllerInvite := Some(Invite(nonce, true)))
    case SetName(name, _) => s.(name := Some(name))
    case Add(node, hostname, role, virtualIp, cited, ts) =>
      s.(members := s.members[node := Member(hostname, role, virtualIp, e.signer)],
         admitted := s.admitted[node := ts],
         consumed := if UsesUpInvite(orig, s, e) then s.consumed + {cited} else s.consumed)
  }

  function Step(orig: Id, s: State, e: Entry): State {
    if Authorized(orig, s, e) then Effect(orig, s, e) else s
  }

  /** Fold entries, in order, onto a state. */
  function Run(orig: Id, s: State, xs: seq<Keyed<Entry>>): State {
    if xs == [] then s
    else Step(orig, Run(orig, s, xs[..|xs| - 1]), xs[|xs| - 1].item)
  }

  // ----- the whole build -----

  predicate Authentic(cfg: Config, o: Outside, e: Entry) {
    e.networkId == cfg.networkId && e.op.ts <= o.ceiling && o.verified(e)
  }

  function Key(o: Outside, e: Entry): Keyed<Entry> {
    Keyed(e.op.ts, o.contentId(e), e)
  }

  /** The authentic entries of a bag, each once, with their sort keys. */
  ghost function Valid(cfg: Config, o: Outside, entries: seq<Entry>): set<Keyed<Entry>> {
    set e | e in entries && Authentic(cfg, o, e) :: Key(o, e)
  }

  /** No two authentic entries of the bag hash to the same content id. */
  ghost predicate CollisionFree(cfg: Config, o: Outside, entries: seq<Entry>) {
    forall a, b :: (a in entries && b in entries && Authentic(cfg, o, a) && Authentic(cfg, o, b)
                    && o.contentId(a) == o.contentId(b)) ==> a == b
  }

  lemma ValidDistinct(cfg: Config, o: Outside, entries: seq<Entry>)
    requires CollisionFree(cfg, o, entries)
    ensures DistinctIds(Valid(cfg, o, entries))
  {
  }

  /** The fold state after all entries of the bag. */
  ghost function Folded(cfg: Config, o: Outside, entries: seq<Entry>): State
    requires CollisionFree(cfg, o, entries)
  {
    ValidDistinct(cfg, o, entries);
    Run(cfg.originatorId, EMPTY, Arrange(Valid(cfg, o, entries)))
  }

  function AdmittedAt(admitted: map<Id, nat>, id: Id): nat {
    if id in admitted then admitted[id] else 0
  }

  /** The members as the allocator sees them: admission time, id, recorded host. */
  function Slots(members: map<Id, Member>, admitted: map<Id, nat>): (slots: set<Keyed<nat>>)
    ensures DistinctIds(slots)
  {
    set id | id in members :: Keyed(AdmittedAt(admitted, id), id, members[id].virtualIp.d as nat)
  }

  /** The members in admission order. */
  ghost function Order(members: map<Id, Member>, admitted: map<Id, nat>): seq<Keyed<nat>> {
    Arrange(Slots(members, admitted))
  }

  lemma OrderIds(members: map<Id, Member>, admitted: map<Id, nat>, id: Id)
    ensures HasId(Order(members, admitted), id) <==> id in members
  {
    var order := Order(members, admitted);
    if id in members {
      var slot := Keyed(AdmittedAt(admitted, id), id, members[id].virtualIp.d as nat);
      assert slot in Slots(members, admitted);
      assert slot in Elements(order);
    }
    if HasId(order, id) {
      var i :| 0 <= i < |order| && order[i].minor == id;
      assert order[i] in Elements(order);
    }
  }

  /** The host the allocator gives each member. */
  ghost function Hosts(members: map<Id, Member>, admitted: map<Id, nat>): (hosts: map<Id, u8>)
    ensures hosts.Keys == members.Keys
  {
    map id | id in members :: (OrderIds(members, admitted, id); HostIn(Order(members, admitted), id))
  }

  function WithHost(m: Member, subnet: Ip, host: u8): Member {
    m.(virtualIp := Ip(subnet.a, subnet.b, subnet.c, host))
  }

  /** The members with the addresses in `hosts`, for those in `done`. */
  function Readdressed(members: map<Id, Member>, subnet: Ip, hosts: map<Id, u8>, done: set<Id>): map<Id, Member>
    requires hosts.Keys == members.Keys
  {
    map id | id in members :: if id in done then WithHost(members[id], subnet, hosts[id]) else members[id]
  }

  /** The members with their final addresses. */
  ghost function Resolved(members: map<Id, Member>, admitted: map<Id, nat>, subnet: Ip): map<Id, Member> {
    Readdressed(members, subnet, Hosts(members, admitted), members.Keys)
  }

  predicate IsSpent(invite: Option<Invite>, consumed: set<Nonce>) {
    invite.Some? && invite.value.nonce in consumed
  }

  ghost function Finish(s: State, subnet: Ip): Roster {
    Roster(Resolved(s.members, s.admitted, subnet), s.frozen, s.name, s.peerInvite, s.controllerInvite,
           IsSpent(s.peerInvite, s.consumed), IsSpent(s.controllerInvite, s.consumed))
  }

  /** What `Roster::build` returns for a bag of entries. It is a function of the
      *set* of authentic entries only. */
  ghost function Built(cfg: Config, o: Outside, entries: seq<Entry>): Roster
    requires CollisionFree(cfg, o, entries)
  {
    Finish(Folded(cfg, o, entries), cfg.subnet)
  }

  // ----- the loops of the source -----

  lemma OrderIsRoll(members: map<Id, Member>, admitted: map<Id, nat>)
    ensures IsRoll(Order(members, admitted))
  {
    var order := Order(members, admitted);
    forall i, j | 0 <= i < j < |order|
      ensures order[i].minor != order[j].minor
    {
      assert order[i] in Elements(order) && order[j] in Elements(order);
      assert Before(order[i], order[j]);
    }
  }

  lemma OrderSlots(members: map<Id, Member>, admitted: map<Id, nat>, i: nat)
    requires i < |Order(members, admitted)|
    ensures var slot := Order(members, admitted)[i];
            && slot.minor in members
            && slot == Keyed(AdmittedAt(admitted, slot.minor), slot.minor, members[slot.minor].virtualIp.d as nat)
  {
    assert Order(members, admitted)[i] in Elements(Order(members, admitted));
  }

  lemma {:induction false} RollSize(order: seq<Keyed<nat>>, ids: set<Id>)
    requires IsRoll(order) && forall id :: id in ids <==> HasId(order, id)
    ensures |order| == |ids|
  {
    if order == [] {
      assert ids == {};
    } else {
      var n := |order| - 1;
      var last := order[n].minor;
      assert HasId(order, last);
      forall id
        ensures id in ids - {last} <==> HasId(order[..n], id)
      {
        if id in ids - {last} {
          var i :| 0 <= i < |order| && order[i].minor == id;
          assert order[..n][i].minor == id;
        }
        if HasId(order[..n], id) {
          var i :| 0 <= i < n && order[..n][i].minor == id;
          assert order[i].minor == id && HasId(order, id);
        }
      }
      RollSize(order[..n], ids - {last});
    }
  }

  lemma OrderLength(members: map<Id, Member>, admitted: map<Id, nat>)
    ensures |Order(members, admitted)| == |members|
  {
    OrderIsRoll(members, admitted);
    forall id
      ensures id in members.Keys <==> HasId(Order(members, admitted), id)
    {
      OrderIds(members, admitted, id);
    }
    RollSize(Order(members, admitted), members.Keys);
    assert |members.Keys| == |members|;
  }

  /** `hosts` gives each member of the order the host of its turn. */
  ghost predicate HostsOfTurns(order: seq<Keyed<nat>>, hosts: map<Id, u8>) {
    forall i {:trigger HostAt(Records(order), i)} :: 0 <= i < |order| ==>
      order[i].minor in hosts && hosts[order[i].minor] == HostAt(Records(order), i)
  }

  /** The serving loop of `assign_ips`: members are rewritten one by one. */
  method Serve(members: map<Id, Member>, subnet: Ip, order: seq<Keyed<nat>>, ghost hosts: map<Id, u8>)
    returns (out: map<Id, Member>)
    requires hosts.Keys == members.Keys && HostsOfTurns(order, hosts)
    ensures out == Readdressed(members, subnet, hosts, set i | 0 <= i < |order| :: order[i].minor)
  {
    ghost var done: set<Id> := {};
    ghost var roll := Records(order);
    out := members;
    var taken: set<nat> := {};
    for n := 0 to |order|
      invariant taken == Taken(roll, n)
      invariant done == set i | 0 <= i < n :: order[i].minor
      invariant out == Readdressed(members, subnet, hosts, done)
    {
      var id := order[n].minor;
      var host := Probe(order[n].item, taken);
      assert host == HostAt(roll, n);
      taken := taken + {host};
      out := out[id := WithHost(out[id], subnet, host)];
      done := done + {id};
    }
  }

  lemma HostsFitTurns(members: map<Id, Member>, admitted: map<Id, nat>)
    ensures HostsOfTurns(Order(members, admitted), Hosts(members, admitted))
    ensures (set i | 0 <= i < |Order(members, admitted)| :: Order(members, admitted)[i].minor) == members.Keys
  {
    var order := Order(members, admitted);
    OrderIsRoll(members, admitted);
    forall i | 0 <= i < |order|
      ensures order[i].minor in members && Hosts(members, admitted)[order[i].minor] == HostAt(Records(order), i)
    {
      TurnIs(order, i);
      OrderIds(members, admitted, order[i].minor);
    }
    forall id | id in members
      ensures id in set i | 0 <= i < |order| :: order[i].minor
    {
      OrderIds(members, admitted, id);
    }
  }

  /** `assign_ips`: put the members in admission order, then serve them. */
  method AssignIps(members: map<Id, Member>, admitted: map<Id, nat>, subnet: Ip) returns (out: map<Id, Member>)
    ensures out == Resolved(members, admitted, subnet)
  {
    var order := Sort(Slots(members, admitted));
    HostsFitTurns(members, admitted);
    out := Serve(members, subnet, order, Hosts(members, admitted));
  }

  /** Keep the authentic entries, one per content id. */
  method Authenticate(cfg: Config, o: Outside, entries: seq<Entry>) returns (keyed: set<Keyed<Entry>>)
    requires CollisionFree(cfg, o, entries)
    ensures keyed == Valid(cfg, o, entries)
  {
    var valid: map<Id, Entry> := map[];
    for i := 0 to |entries|
      invariant forall e :: e in entries[..i] && Authentic(cfg, o, e) ==>
        o.contentId(e) in valid && valid[o.contentId(e)] == e
      invariant forall id :: id in valid ==>
        valid[id] in entries && Authentic(cfg, o, valid[id]) && o.contentId(valid[id]) == id
    {
      var e := entries[i];
      assert entries[..i + 1] == entries[..i] + [e];
      if e.networkId == cfg.networkId && e.op.ts <= o.ceiling && o.verified(e) {
        valid := valid[o.contentId(e) := e];
      }
    }
    assert entries[..|entries|] == entries;
    keyed := set id | id in valid :: Key(o, valid[id]);
    forall k | k in Valid(cfg, o, entries)
      ensures k in keyed
    {
      assert o.contentId(k.item) in valid;
    }
  }

  /** The fold's loop: authorization is checked at each entry against the state so far. */
  method Fold(orig: Id, ordered: seq<Keyed<Entry>>) returns (s: State)
    ensures s == Run(orig, EMPTY, ordered)
  {
    var members: map<Id, Member> := map[];
    var admitted: map<Id, nat> := map[];
    var consumed: set<Nonce> := {};
    var frozen := false;
    var name: Option<string> := None;
    var peerInvite: Option<Invite> := None;
    var controllerInvite: Option<Invite> := None;
    for i := 0 to |ordered|
      invariant State(members, admitted, consumed, frozen, name, peerInvite, controllerInvite)
                == Run(orig, EMPTY, ordered[..i])
    {
      assert ordered[..i + 1][..i] == ordered[..i];
      var e := ordered[i].item;
      var isOrig := e.signer == orig;
      var isController := e.signer in members && members[e.signer].role == Controller;
      match e.op {
        case Freeze(value, _) =>
          if isOrig {
            frozen := value;
          }
        case Remove(node, _) =>
          if isOrig || (isController && node in members && members[node].role == Peer) {
            members := members - {node};
            admitted := admitted - {node};
          }
        case SetRole(node, role, _) =>
          if isOrig && node in members {
            members := members[node := members[node].(role := role)];
          }
        case SetInvite(kind, nonce, singleUse, _) =>
          if kind == ForPeer {
            if isOrig || isController {
              peerInvite := Some(Invite(nonce, singleUse));
            }
          } else if isOrig {
            controllerInvite := Some(Invite(nonce, true));
          }
        case SetName(value, _) =>
          if isOrig || isController {
            name := Some(value);
          }
        case Add(node, hostname, role, virtualIp, cited, ts) =>
          var approverOk := isOrig || (isController && e.signer in admitted && admitted[e.signer] <= ts);
          if !frozen && approverOk {
            var gateOk := true;
            if !isOrig {
              var current := if role == Peer then peerInvite else controllerInvite;
              gateOk := current.Some? && cited == current.value.nonce
                        && !(current.value.singleUse && current.value.nonce in consumed);
              if gateOk && current.value.singleUse {
                consumed := consumed + {current.value.nonce};
              }
            }
            if gateOk {
              members := members[node := Member(hostname, role, virtualIp, e.signer)];
              admitted := admitted[node := ts];
            }
          }
      }
    }
    assert ordered[..|ordered|] == ordered;
    s := State(members, admitted, consumed, frozen, name, peerInvite, controllerInvite);
  }

  /** `Roster::build`. The same roster comes out whatever the order and the number
      of copies of the entries, since `Built` looks at the set of authentic ones. */
  method Build(cfg: Config, o: Outside, entries: seq<Entry>) returns (r: Roster)
    requires CollisionFree(cfg, o, entries)
    ensures r == Built(cfg, o, entries)
  {
    ValidDistinct(cfg, o, entries);
    var keyed := Authenticate(cfg, o, entries);
    var ordered := Sort(keyed);
    var s := Fold(cfg.originatorId, ordered);
    var resolved := AssignIps(s.members, s.admitted, cfg.subnet);
    r := Roster(resolved, s.frozen, s.name, s.peerInvite, s.controllerInvite,
                s.peerInvite.Some? && s.peerInvite.value.nonce in s.consumed,
                s.controllerInvite.Some? && s.controllerInvite.value.nonce in s.consumed);
  }
}
