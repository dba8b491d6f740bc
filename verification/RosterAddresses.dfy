/** What members can rely on about their virtual addresses, and the forwarding table
    built from them. */
module RosterAddresses {
  import opened Basics
  import opened Ordering
  import opened Addressing
  import opened Turns
  import opened Roster
  import opened RosterRules

  function SlotOf(members: map<Id, Member>, admitted: map<Id, nat>, id: Id): Keyed<nat>
    requires id in members
  {
    Keyed(AdmittedAt(admitted, id), id, members[id].virtualIp.d as nat)
  }

  lemma HostIs(members: map<Id, Member>, admitted: map<Id, nat>, id: Id)
    requires id in members
    ensures IsRoll(Order(members, admitted)) && |Order(members, admitted)| == |members|
    ensures HasId(Order(members, admitted), id)
    ensures Hosts(members, admitted)[id] == HostIn(Order(members, admitted), id)
    ensures Order(members, admitted)[TurnOf(Order(members, admitted), id)].item == members[id].virtualIp.d
  {
    OrderLength(members, admitted);
    OrderIsRoll(members, admitted);
    OrderIds(members, admitted, id);
    OrderSlots(members, admitted, TurnOf(Order(members, admitted), id));
  }

  lemma ResolvedIs(members: map<Id, Member>, admitted: map<Id, nat>, subnet: Ip, id: Id)
    requires id in members
    ensures Resolved(members, admitted, subnet)[id] == WithHost(members[id], subnet, Hosts(members, admitted)[id])
    ensures IsHost(Hosts(members, admitted)[id])
  {
    OrderIds(members, admitted, id);
  }

  // ----- distinctness -----

  lemma HostsAreDistinct(members: map<Id, Member>, admitted: map<Id, nat>, a: Id, b: Id)
    requires |members| <= 253 && a in members && b in members
    ensures Hosts(members, admitted)[a] == Hosts(members, admitted)[b] <==> a == b
  {
    HostIs(members, admitted, a);
    HostIs(members, admitted, b);
    HostsInDistinct(Order(members, admitted), a, b);
  }

  /** With at most 253 members all addresses are usable hosts of the subnet and no two
      members share one. */
  lemma AddressesAreDistinct(members: map<Id, Member>, admitted: map<Id, nat>, subnet: Ip, a: Id, b: Id)
    requires |members| <= 253 && a in members && b in members
    ensures var ip := Resolved(members, admitted, subnet)[a].virtualIp;
            IsHost(ip.d) && ip == Ip(subnet.a, subnet.b, subnet.c, ip.d)
    ensures var all := Resolved(members, admitted, subnet); all[a].virtualIp == all[b].virtualIp <==> a == b
  {
    ResolvedIs(members, admitted, subnet, a);
    ResolvedIs(members, admitted, subnet, b);
    HostsAreDistinct(members, admitted, a, b);
  }

  // ----- departures -----

  lemma OrderWithoutSlot(members: map<Id, Member>, admitted: map<Id, nat>, x: Id) returns (k: nat)
    requires x in members
    ensures DistinctIds(Slots(members, admitted) - {SlotOf(members, admitted, x)})
    ensures k < |Order(members, admitted)| && Order(members, admitted)[k] == SlotOf(members, admitted, x)
    ensures Arrange(Slots(members, admitted) - {SlotOf(members, admitted, x)}) == Without(Order(members, admitted), k)
  {
    assert SlotOf(members, admitted, x) in Slots(members, admitted);
    k := ArrangeWithout(Slots(members, admitted), SlotOf(members, admitted, x));
  }

  lemma SlotsWithout(members: map<Id, Member>, admitted: map<Id, nat>, x: Id)
    requires x in members
    ensures Slots(members - {x}, admitted - {x}) == Slots(members, admitted) - {SlotOf(members, admitted, x)}
  {
    forall s
      ensures s in Slots(members - {x}, admitted - {x}) <==>
              s in Slots(members, admitted) - {SlotOf(members, admitted, x)}
    {
      if s in Slots(members, admitted) - {SlotOf(members, admitted, x)} {
        assert s.minor in members - {x};
        assert s == SlotOf(members - {x}, admitted - {x}, s.minor);
      }
      if s in Slots(members - {x}, admitted - {x}) {
        assert s == SlotOf(members, admitted, s.minor);
      }
    }
  }

  /** Taking a member out takes it out of the admission order and changes nothing else. */
  lemma OrderWithout(members: map<Id, Member>, admitted: map<Id, nat>, x: Id) returns (k: nat)
    requires x in members
    ensures k < |Order(members, admitted)| && Order(members, admitted)[k].minor == x
    ensures Order(members - {x}, admitted - {x}) == Without(Order(members, admitted), k)
  {
    SlotsWithout(members, admitted, x);
    k := OrderWithoutSlot(members, admitted, x);
  }

  lemma HostKeptAtHome(members: map<Id, Member>, admitted: map<Id, nat>, x: Id, b: Id)
    requires |members| <= 253 && x in members && b in members && x != b
    requires Hosts(members, admitted)[b] == Start(members[b].virtualIp.d)
    ensures Hosts(members - {x}, admitted - {x})[b] == Hosts(members, admitted)[b]
  {
    HostIs(members, admitted, b);
    HostIs(members - {x}, admitted - {x}, b);
    var k := OrderWithout(members, admitted, x);
    KeptAtHome(Order(members, admitted), k, b);
  }

  lemma HostMovedByNeighbour(members: map<Id, Member>, admitted: map<Id, nat>, b: Id) returns (x: Id)
    requires |members| <= 253 && b in members
    requires Hosts(members, admitted)[b] != Start(members[b].virtualIp.d)
    ensures x in members && x != b
    ensures Hosts(members - {x}, admitted - {x})[b] != Hosts(members, admitted)[b]
  {
    HostIs(members, admitted, b);
    var k := MovedByNeighbour(Order(members, admitted), b);
    OrderSlots(members, admitted, k);
    x := Order(members, admitted)[k].minor;
    var k' := OrderWithout(members, admitted, x);
    assert k' == k;
    HostIs(members - {x}, admitted - {x}, b);
  }

  /** `b` keeps its address whichever other member is removed. */
  ghost predicate NeverMovedByRemoval(members: map<Id, Member>, admitted: map<Id, nat>, subnet: Ip, b: Id)
    requires b in members
  {
    forall x :: x in members && x != b ==>
      Resolved(members - {x}, admitted - {x}, subnet)[b] == Resolved(members, admitted, subnet)[b]
  }

  /** "Removing another member never shifts it" holds of a member exactly when its
      address is the one it starts probing from: its recorded host, if usable. */
  lemma RemovalShiftsOnlyTheDisplaced(members: map<Id, Member>, admitted: map<Id, nat>, subnet: Ip, b: Id)
    requires |members| <= 253 && b in members
    ensures NeverMovedByRemoval(members, admitted, subnet, b) <==>
            Resolved(members, admitted, subnet)[b].virtualIp.d == Start(members[b].virtualIp.d)
  {
    ResolvedIs(members, admitted, subnet, b);
    if Hosts(members, admitted)[b] == Start(members[b].virtualIp.d) {
      forall x | x in members && x != b
        ensures Resolved(members - {x}, admitted - {x}, subnet)[b] == Resolved(members, admitted, subnet)[b]
      {
        HostKeptAtHome(members, admitted, x, b);
        ResolvedIs(members - {x}, admitted - {x}, subnet, b);
      }
    } else {
      var x := HostMovedByNeighbour(members, admitted, b);
      ResolvedIs(members - {x}, admitted - {x}, subnet, b);
    }
  }

  /** The roll of members that are admitted at times 1 and 2. */
  lemma OrderOfTwo(members: map<Id, Member>, admitted: map<Id, nat>)
    requires members.Keys == {1, 2} && admitted == map[1 := 1, 2 := 2]
    ensures Order(members, admitted)
            == [Keyed(1, 1, members[1].virtualIp.d as nat), Keyed(2, 2, members[2].virtualIp.d as nat)]
  {
    var order := [Keyed(1, 1, members[1].virtualIp.d as nat), Keyed(2, 2, members[2].virtualIp.d as nat)];
    forall s
      ensures s in Elements(order) <==> s in Slots(members, admitted)
    {
      assert s in Slots(members, admitted) ==> s.minor in {1, 2};
      assert order[0] in order && order[1] in order;
    }
    ArrangementUnique(Order(members, admitted), order);
  }

  lemma OrderOfOne(members: map<Id, Member>, admitted: map<Id, nat>)
    requires members.Keys == {2} && admitted == map[2 := 2]
    ensures Order(members, admitted) == [Keyed(2, 2, members[2].virtualIp.d as nat)]
  {
    var order := [Keyed(2, 2, members[2].virtualIp.d as nat)];
    forall s
      ensures s in Elements(order) <==> s in Slots(members, admitted)
    {
      assert order[0] in order;
    }
    ArrangementUnique(Order(members, admitted), order);
  }

  lemma TwoOnFive()
    ensures HostAt([5, 5], 1) == 6 && HostAt([5], 0) == 5
  {
    assert Taken([5, 5], 0) == {} && HostAt([5, 5], 0) == 5;
    assert Taken([5, 5], 1) == {5};
    PickIs(5, {5}, 6);
  }

  /** A concrete case: two members recorded .5, so the second sits on .6. When the first one
      leaves, the second moves to .5. */
  lemma RemovalCanShift(subnet: Ip) returns (members: map<Id, Member>, admitted: map<Id, nat>)
    ensures 1 in members && 2 in members && members[1].virtualIp.d == members[2].virtualIp.d == 5
    ensures Resolved(members, admitted, subnet)[2].virtualIp.d == 6
    ensures Resolved(members - {1}, admitted - {1}, subnet)[2].virtualIp.d == 5
    ensures !NeverMovedByRemoval(members, admitted, subnet, 2)
  {
    var ip := Ip(subnet.a, subnet.b, subnet.c, 5);
    members := map[1 := Member("a", Peer, ip, 9), 2 := Member("b", Peer, ip, 9)];
    admitted := map[1 := 1, 2 := 2];
    OrderOfTwo(members, admitted);
    OrderOfOne(members - {1}, admitted - {1});
    SecondOfTwo(members, admitted, subnet);
    OnlyOne(members - {1}, admitted - {1}, subnet);
  }

  lemma SecondOfTwo(members: map<Id, Member>, admitted: map<Id, nat>, subnet: Ip)
    requires 2 in members && Order(members, admitted) == [Keyed(1, 1, 5), Keyed(2, 2, 5)]
    ensures Resolved(members, admitted, subnet)[2].virtualIp.d == 6
  {
    TwoOnFive();
    TurnIs(Order(members, admitted), 1);
    assert Records(Order(members, admitted)) == [5, 5];
    HostIs(members, admitted, 2);
    ResolvedIs(members, admitted, subnet, 2);
  }

  lemma OnlyOne(members: map<Id, Member>, admitted: map<Id, nat>, subnet: Ip)
    requires 2 in members && Order(members, admitted) == [Keyed(2, 2, 5)]
    ensures Resolved(members, admitted, subnet)[2].virtualIp.d == 5
  {
    TwoOnFive();
    TurnIs(Order(members, admitted), 0);
    assert Records(Order(members, admitted)) == [5];
    HostIs(members, admitted, 2);
    ResolvedIs(members, admitted, subnet, 2);
  }

  predicate SameButAddress(m: Member, m': Member) {
    m'.hostname == m.hostname && m'.role == m.role && m'.addedBy == m.addedBy
  }

  lemma RemovalOnOne(members: map<Id, Member>, admitted: map<Id, nat>, subnet: Ip, x: Id, b: Id)
    requires x in members && b in members && b != x && |members| <= 253
    ensures SameButAddress(Resolved(members, admitted, subnet)[b], Resolved(members - {x}, admitted - {x}, subnet)[b])
    ensures Resolved(members, admitted, subnet)[b].virtualIp.d == Start(members[b].virtualIp.d) ==>
              Resolved(members - {x}, admitted - {x}, subnet)[b] == Resolved(members, admitted, subnet)[b]
  {
    ResolvedIs(members, admitted, subnet, b);
    ResolvedIs(members - {x}, admitted - {x}, subnet, b);
    if Hosts(members, admitted)[b] == Start(members[b].virtualIp.d) {
      HostKeptAtHome(members, admitted, x, b);
    }
  }

  lemma RemovalEffect(orig: Id, s: State, e: Entry)
    requires e.op.Remove? && Authorized(orig, s, e)
    ensures Step(orig, s, e).members == s.members - {e.op.node}
    ensures Step(orig, s, e).admitted == s.admitted - {e.op.node}
  {
  }

  lemma RemovalShown(s: State, s': State, subnet: Ip, x: Id, b: Id)
    requires x in s.members && b in s.members && |s.members| <= 253
    requires s'.members == s.members - {x} && s'.admitted == s.admitted - {x}
    ensures b in Finish(s', subnet).members <==> b != x
    ensures b != x ==> SameButAddress(Finish(s, subnet).members[b], Finish(s', subnet).members[b])
    ensures b != x && Finish(s, subnet).members[b].virtualIp.d == Start(s.members[b].virtualIp.d)
            ==> Finish(s', subnet).members[b] == Finish(s, subnet).members[b]
  {
    if b != x {
      RemovalOnOne(s.members, s.admitted, subnet, x, b);
    }
  }

  /** Through the whole build: an authorized `Remove` that sorts last takes its target
      out, changes nothing about anybody else but possibly their address, and moves
      nobody who sits on the host they start from. */
  lemma RemoveIsLocal(cfg: Config, o: Outside, entries: seq<Entry>, e: Entry, s: State, b: Id)
    requires SortsLast(cfg, o, entries, e) && CollisionFree(cfg, o, entries) && s == Folded(cfg, o, entries)
    requires e.op.Remove? && e.op.node in s.members && Authorized(cfg.originatorId, s, e)
    requires |s.members| <= 253 && b in s.members
    ensures b in Built(cfg, o, entries + [e]).members <==> b != e.op.node
    ensures b != e.op.node ==>
              SameButAddress(Built(cfg, o, entries).members[b], Built(cfg, o, entries + [e]).members[b])
    ensures b != e.op.node && Built(cfg, o, entries).members[b].virtualIp.d == Start(s.members[b].virtualIp.d)
            ==> Built(cfg, o, entries + [e]).members[b] == Built(cfg, o, entries).members[b]
  {
    FoldOneMore(cfg, o, entries, e);
    RemovalEffect(cfg.originatorId, s, e);
    RemovalShown(s, Step(cfg.originatorId, s, e), cfg.subnet, e.op.node, b);
  }

  // ----- arrivals -----

  lemma SlotsWith(members: map<Id, Member>, admitted: map<Id, nat>, x: Id, m: Member, t: nat)
    requires x !in members
    ensures var members', admitted' := members[x := m], admitted[x := t];
            Slots(members', admitted') - {SlotOf(members', admitted', x)} == Slots(members, admitted)
  {
    var members', admitted' := members[x := m], admitted[x := t];
    forall s
      ensures s in Slots(members', admitted') - {SlotOf(members', admitted', x)} <==> s in Slots(members, admitted)
    {
      if s in Slots(members, admitted) {
        assert s == SlotOf(members', admitted', s.minor);
      }
      if s in Slots(members', admitted') {
        assert s == SlotOf(members', admitted', s.minor);
        assert s.minor != x ==> s == SlotOf(members, admitted, s.minor);
      }
    }
  }

  /** Adding a member puts it into the admission order and changes nothing else. */
  lemma OrderWith(members: map<Id, Member>, admitted: map<Id, nat>, x: Id, m: Member, t: nat) returns (k: nat)
    requires x !in members
    ensures var wide := Order(members[x := m], admitted[x := t]);
            && k < |wide| && wide[k].minor == x && wide[k].item == m.virtualIp.d
            && Without(wide, k) == Order(members, admitted)
  {
    SlotsWith(members, admitted, x, m, t);
    k := OrderWithoutSlot(members[x := m], admitted[x := t], x);
  }

  /** A host nobody's resolved address uses is one the allocator has left free. */
  lemma UnoccupiedIsFree(members: map<Id, Member>, admitted: map<Id, nat>, subnet: Ip, h: nat)
    requires h !in Occupied(Resolved(members, admitted, subnet))
    ensures h !in Taken(Records(Order(members, admitted)), |Order(members, admitted)|)
  {
    var order := Order(members, admitted);
    OrderIsRoll(members, admitted);
    if h in Taken(Records(order), |order|) {
      OccupiedBySomeone(order, h);
      var id :| HasId(order, id) && HostIn(order, id) == h;
      OrderIds(members, admitted, id);
      HostIs(members, admitted, id);
      ResolvedIs(members, admitted, subnet, id);
      OccupiedHas(Resolved(members, admitted, subnet), id);
    }
  }

  lemma OccupiedHas(members: map<Id, Member>, id: Id)
    requires id in members
    ensures members[id].virtualIp.d in Occupied(members)
  {
  }

  /** `members'` and `admitted'` are `members` and `admitted` with a newcomer, and there is
      room for it. */
  ghost predicate Joins(members: map<Id, Member>, admitted: map<Id, nat>, x: Id, m: Member, t: nat,
                        members': map<Id, Member>, admitted': map<Id, nat>) {
    && |members| < 253 && x !in members
    && members' == members[x := m] && admitted' == admitted[x := t]
  }

  lemma JoinerAtTurn(members: map<Id, Member>, admitted: map<Id, nat>, x: Id, m: Member, t: nat,
                     members': map<Id, Member>, admitted': map<Id, nat>) returns (k: nat)
    requires Joins(members, admitted, x, m, t, members', admitted')
    ensures var wide := Order(members', admitted');
            && IsRoll(wide) && k < |wide| <= 253 && wide[k].minor == x && wide[k].item == m.virtualIp.d
            && Without(wide, k) == Order(members, admitted)
    ensures Hosts(members', admitted')[x] == HostAt(Records(Order(members', admitted')), k)
  {
    k := OrderWith(members, admitted, x, m, t);
    HostIs(members', admitted', x);
    TurnIs(Order(members', admitted'), k);
  }

  /** A host that the allocator leaves free. */
  ghost predicate IsLeftFree(members: map<Id, Member>, admitted: map<Id, nat>, h: nat) {
    h !in Taken(Records(Order(members, admitted)), |Order(members, admitted)|)
  }

  lemma JoinerHost(members: map<Id, Member>, admitted: map<Id, nat>, x: Id, m: Member, t: nat,
                   members': map<Id, Member>, admitted': map<Id, nat>)
    requires Joins(members, admitted, x, m, t, members', admitted')
    requires IsHost(m.virtualIp.d) && IsLeftFree(members, admitted, m.virtualIp.d)
    ensures Hosts(members', admitted')[x] == m.virtualIp.d
  {
    var k := JoinerAtTurn(members, admitted, x, m, t, members', admitted');
    NewcomerOwn(Order(members', admitted'), k);
    HostIs(members', admitted', x);
  }

  lemma OthersHost(members: map<Id, Member>, admitted: map<Id, nat>, x: Id, m: Member, t: nat,
                   members': map<Id, Member>, admitted': map<Id, nat>, id: Id)
    requires Joins(members, admitted, x, m, t, members', admitted') && id in members
    requires IsLeftFree(members, admitted, Hosts(members', admitted')[x])
    ensures Hosts(members', admitted')[id] == Hosts(members, admitted)[id]
  {
    var k := JoinerAtTurn(members, admitted, x, m, t, members', admitted');
    OrderIds(members', admitted', id);
    NewcomerOthers(Order(members', admitted'), k, id);
    HostIs(members', admitted', id);
    HostIs(members, admitted, id);
  }

  lemma BeforeIsEarlier(order: seq<Keyed<nat>>, i: nat, j: nat)
    requires Ascending(order) && i < |order| && j < |order| && Before(order[i], order[j])
    ensures i < j
  {
  }

  lemma EarlierHost(members: map<Id, Member>, admitted: map<Id, nat>, x: Id, m: Member, t: nat,
                    members': map<Id, Member>, admitted': map<Id, nat>, id: Id)
    requires Joins(members, admitted, x, m, t, members', admitted') && id in members
    requires Before(SlotOf(members', admitted', id), SlotOf(members', admitted', x))
    ensures Hosts(members', admitted')[id] == Hosts(members, admitted)[id]
  {
    var k := JoinerAtTurn(members, admitted, x, m, t, members', admitted');
    var wide := Order(members', admitted');
    OrderIds(members', admitted', id);
    OrderSlots(members', admitted', k);
    OrderSlots(members', admitted', TurnOf(wide, id));
    BeforeIsEarlier(wide, TurnOf(wide, id), k);
    NewcomerEarlier(wide, k, id);
    HostIs(members', admitted', id);
    HostIs(members, admitted, id);
  }

  ghost predicate SameAddress(members: map<Id, Member>, admitted: map<Id, nat>, subnet: Ip,
                              members': map<Id, Member>, admitted': map<Id, nat>, id: Id)
    requires id in members && id in members'
  {
    Resolved(members', admitted', subnet)[id].virtualIp == Resolved(members, admitted, subnet)[id].virtualIp
  }

  /** Whatever host a newcomer records: it moves somebody if and only if the host it is given
      was somebody's. */
  lemma NewcomerMovesExactlyTheSeated(members: map<Id, Member>, admitted: map<Id, nat>, subnet: Ip, x: Id,
                                      m: Member, t: nat, members': map<Id, Member>, admitted': map<Id, nat>)
    requires Joins(members, admitted, x, m, t, members', admitted')
    ensures (forall id :: id in members ==> SameAddress(members, admitted, subnet, members', admitted', id))
            <==> Resolved(members', admitted', subnet)[x].virtualIp.d !in Occupied(Resolved(members, admitted, subnet))
  {
    ResolvedIs(members', admitted', subnet, x);
    var h := Hosts(members', admitted')[x];
    if h !in Occupied(Resolved(members, admitted, subnet)) {
      UnoccupiedIsFree(members, admitted, subnet, h);
      forall id | id in members
        ensures SameAddress(members, admitted, subnet, members', admitted', id)
      {
        OthersHost(members, admitted, x, m, t, members', admitted', id);
        ResolvedIs(members', admitted', subnet, id);
        ResolvedIs(members, admitted, subnet, id);
      }
    } else {
      var id := SeatedMoves(members, admitted, subnet, x, m, t, members', admitted');
    }
  }

  lemma SeatedMoves(members: map<Id, Member>, admitted: map<Id, nat>, subnet: Ip, x: Id, m: Member, t: nat,
                    members': map<Id, Member>, admitted': map<Id, nat>) returns (id: Id)
    requires Joins(members, admitted, x, m, t, members', admitted')
    requires Hosts(members', admitted')[x] in Occupied(Resolved(members, admitted, subnet))
    ensures id in members && !SameAddress(members, admitted, subnet, members', admitted', id)
  {
    id := SeatedOn(Resolved(members, admitted, subnet), Hosts(members', admitted')[x]);
    var k := JoinerAtTurn(members, admitted, x, m, t, members', admitted');
    HostIs(members', admitted', x);
    ResolvedIs(members', admitted', subnet, id);
    HostsAreDistinct(members', admitted', id, x);
  }

  lemma SeatedOn(members: map<Id, Member>, h: nat) returns (id: Id)
    requires h in Occupied(members)
    ensures id in members && members[id].virtualIp.d as nat == h
  {
    id :| id in members && members[id].virtualIp.d as nat == h;
  }

  /** And it never moves a member that sorts before it by admission time and id. */
  lemma NewcomerMovesNoneBefore(members: map<Id, Member>, admitted: map<Id, nat>, subnet: Ip, x: Id, m: Member,
                                t: nat, members': map<Id, Member>, admitted': map<Id, nat>, id: Id)
    requires Joins(members, admitted, x, m, t, members', admitted') && id in members
    requires AdmittedAt(admitted, id) < t || (AdmittedAt(admitted, id) == t && id < x)
    ensures SameAddress(members, admitted, subnet, members', admitted', id)
  {
    EarlierHost(members, admitted, x, m, t, members', admitted', id);
    ResolvedIs(members', admitted', subnet, id);
    ResolvedIs(members, admitted, subnet, id);
  }

  /** A newcomer recording a host of the subnet that nobody occupies gets exactly that
      address, and every other member keeps its own, whatever the admission times. */
  lemma NewcomerIsLocal(members: map<Id, Member>, admitted: map<Id, nat>, subnet: Ip, x: Id, m: Member, t: nat, id: Id)
    requires |members| < 253 && x !in members && id in members[x := m]
    requires IsHost(m.virtualIp.d) && m.virtualIp.d !in Occupied(Resolved(members, admitted, subnet))
    requires m.virtualIp == Ip(subnet.a, subnet.b, subnet.c, m.virtualIp.d)
    ensures Resolved(members[x := m], admitted[x := t], subnet)[id]
            == if id == x then m else Resolved(members, admitted, subnet)[id]
  {
    UnoccupiedIsFree(members, admitted, subnet, m.virtualIp.d);
    var members', admitted' := members[x := m], admitted[x := t];
    ResolvedIs(members', admitted', subnet, id);
    JoinerHost(members, admitted, x, m, t, members', admitted');
    if id != x {
      OthersHost(members, admitted, x, m, t, members', admitted', id);
      ResolvedIs(members, admitted, subnet, id);
    }
  }

  /** The lowest free host of a roster with room is a free, usable host. */
  lemma LowestFreeIsFree(r: Roster, subnet: Ip)
    requires |r.members| < 253
    ensures var ip := LowestFreeHost(r, subnet);
            IsHost(ip.d) && ip.d !in Occupied(r.members) && forall h: nat :: 2 <= h < ip.d ==> h in Occupied(r.members)
  {
    OccupiedCount(r.members);
    var f := FreeHost(Occupied(r.members), 254);
  }

  lemma {:induction false} OccupiedCount(members: map<Id, Member>)
    ensures |Occupied(members)| <= |members|
  {
    if members != map[] {
      var id :| id in members;
      var rest := members - {id};
      OccupiedCount(rest);
      MapSizeLess(members, id);
      forall h | h in Occupied(members)
        ensures h in Occupied(rest) + {members[id].virtualIp.d as nat}
      {
        var k :| k in members && members[k].virtualIp.d as nat == h;
        if k != id {
          OccupiedHas(rest, k);
        }
      }
      SubsetSize(Occupied(members), Occupied(rest) + {members[id].virtualIp.d as nat});
    }
  }

  lemma MapSizeLess(members: map<Id, Member>, id: Id)
    requires id in members
    ensures |members| == |members - {id}| + 1
  {
    assert |members| == |members.Keys|;
    assert |members - {id}| == |(members - {id}).Keys|;
    assert members.Keys == (members - {id}).Keys + {id};
  }

  // ----- admitting a joiner -----

  datatype AdmitError = RosterFrozen | NotAllowed

  datatype AdmitResult = Publish(op: Op) | Refused(error: AdmitError)

  function RoleFor(kind: InviteKind): Role {
    if kind.ForPeer? then Peer else Controller
  }

  /** `admit_member`: the local gate, and the `Add` it publishes under the device key. */
  function AdmitMember(r: Roster, holdsOriginatorSecret: bool, me: Id, subnet: Ip,
                       peer: Id, hostname: string, kind: InviteKind, nonce: Nonce, now: nat): (res: AdmitResult)
    ensures res.Publish? ==> res.op.Add? && res.op.ts == now
  {
    var canAdmit := holdsOriginatorSecret || RoleOf(r, me) == Controller;
    if r.frozen then Refused(RosterFrozen)
    else if !canAdmit then Refused(NotAllowed)
    else Publish(Add(peer, hostname, RoleFor(kind), LowestFreeHost(r, subnet), nonce, now))
  }

  /** Who may publish an admission: on an unfrozen roster, the holder of the originator secret
      and every Controller. A frozen roster is reported first. */
  lemma WhoMayPublish(r: Roster, secret: bool, me: Id, subnet: Ip, peer: Id, hostname: string, kind: InviteKind,
                      nonce: Nonce, now: nat)
    ensures var res := AdmitMember(r, secret, me, subnet, peer, hostname, kind, nonce, now);
            && (res.Publish? <==> !r.frozen && (secret || (me in r.members && r.members[me].role == Controller)))
            && (res == Refused(RosterFrozen) <==> r.frozen)
  {
  }

  lemma SameSize(a: map<Id, Member>, b: map<Id, Member>)
    requires a.Keys == b.Keys
    ensures |a| == |b|
  {
    assert |a| == |a.Keys| && |b| == |b.Keys|;
  }

  lemma AdmissionEffect(orig: Id, s: State, e: Entry)
    requires e.op.Add? && Authorized(orig, s, e)
    ensures Step(orig, s, e).members
            == s.members[e.op.node := Member(e.op.hostname, e.op.role, e.op.virtualIp, e.signer)]
    ensures Step(orig, s, e).admitted == s.admitted[e.op.node := e.op.ts]
  {
  }

  lemma LowestFreeIsUsable(s: State, subnet: Ip, ip: Ip)
    requires |s.members| < 253 && ip == LowestFreeHost(Finish(s, subnet), subnet)
    ensures IsHost(ip.d) && ip.d !in Occupied(Resolved(s.members, s.admitted, subnet))
    ensures ip == Ip(subnet.a, subnet.b, subnet.c, ip.d)
  {
    SameSize(Finish(s, subnet).members, s.members);
    LowestFreeIsFree(Finish(s, subnet), subnet);
  }

  /** An authorized admission with the lowest free host adds its member and no more:
      here for one member `b`, old or new. */
  lemma AcceptedAdmission(orig: Id, s: State, e: Entry, subnet: Ip, b: Id)
    requires e.op.Add? && Authorized(orig, s, e) && e.op.node !in s.members && |s.members| < 253
    requires e.op.virtualIp == LowestFreeHost(Finish(s, subnet), subnet)
    ensures b in Finish(Step(orig, s, e), subnet).members <==> b == e.op.node || b in Finish(s, subnet).members
    ensures b in Finish(Step(orig, s, e), subnet).members ==>
      Finish(Step(orig, s, e), subnet).members[b]
      == if b == e.op.node then Member(e.op.hostname, e.op.role, e.op.virtualIp, e.signer)
         else Finish(s, subnet).members[b]
  {
    AdmissionEffect(orig, s, e);
    LowestFreeIsUsable(s, subnet, e.op.virtualIp);
    if b == e.op.node || b in s.members {
      NewcomerIsLocal(s.members, s.admitted, subnet, e.op.node,
                      Member(e.op.hostname, e.op.role, e.op.virtualIp, e.signer), e.op.ts, b);
    }
  }

  lemma AdmissionStep(orig: Id, s: State, e: Entry, subnet: Ip, b: Id)
    requires e.op.Add? && e.op.node !in s.members && |s.members| < 253
    requires e.op.virtualIp == LowestFreeHost(Finish(s, subnet), subnet) && !s.frozen
    requires IsController(s, e.signer) ==> e.signer in s.admitted && s.admitted[e.signer] <= e.op.ts
    ensures var r, r' := Finish(s, subnet), Finish(Step(orig, s, e), subnet);
            if e.signer == orig
               || (RoleOf(r, e.signer) == Controller && CheckInvite(r, KindFor(e.op.role), e.op.citedNonce) == Ok)
            then && (b in r'.members <==> b == e.op.node || b in r.members)
                 && (b in r'.members ==>
                     r'.members[b] == if b == e.op.node then Member(e.op.hostname, e.op.role, e.op.virtualIp, e.signer)
                                      else r.members[b])
            else r' == r
  {
    NewDeviceStep(orig, s, e, subnet);
    NewDeviceEffect(orig, s, e);
    FinishShows(s, subnet, e.signer, KindFor(e.op.role), e.op.citedNonce);
    if Authorized(orig, s, e) {
      AcceptedAdmission(orig, s, e, subnet, b);
    }
  }

  /** What comes of a published admission that sorts last, on a roster with room. If the
      device key is the originator's, or a Controller's and the invite checks Ok, the new
      device joins with exactly the address picked for it and no member changes in any
      way (`b` is any device); otherwise the roster stays as it was. Holding the
      originator secret passes the local gate but does not help the device key in the
      fold. */
  lemma AdmissionOutcome(cfg: Config, o: Outside, entries: seq<Entry>, e: Entry, b: Id,
                         secret: bool, peer: Id, hostname: string, kind: InviteKind, nonce: Nonce, now: nat)
    requires SortsLast(cfg, o, entries, e) && CollisionFree(cfg, o, entries)
    requires |Built(cfg, o, entries).members| < 253 && peer !in Built(cfg, o, entries).members
    requires AdmitMember(Built(cfg, o, entries), secret, e.signer, cfg.subnet, peer, hostname, kind, nonce, now)
             == Publish(e.op)
    ensures var r, r' := Built(cfg, o, entries), Built(cfg, o, entries + [e]);
            if e.signer == cfg.originatorId || (RoleOf(r, e.signer) == Controller && CheckInvite(r, kind, nonce) == Ok)
            then && (b in r'.members <==> b == peer || b in r.members)
                 && (b in r'.members ==>
                     r'.members[b]
                     == if b == peer then Member(hostname, RoleFor(kind), LowestFreeHost(r, cfg.subnet), e.signer)
                        else r.members[b])
            else r' == r
  {
    var s := Folded(cfg, o, entries);
    SameSize(s.members, Built(cfg, o, entries).members);
    assert e.op.node == peer && e.op.hostname == hostname && e.op.role == RoleFor(kind) && e.op.citedNonce == nonce;
    assert KindFor(e.op.role) == kind;
    AdmittedBeforeLast(cfg, o, entries, e);
    FoldOneMore(cfg, o, entries, e);
    AdmissionStep(cfg.originatorId, s, e, cfg.subnet, b);
  }

  // ----- the secret without the role -----

  /** An outside world in which every entry is authentic and hashes to its timestamp. */
  ghost function PlainWorld(): Outside {
    Outside(e => true, (e: Entry) => e.op.ts, 100)
  }

  ghost predicate InTimeOrder(networkId: Id, entries: seq<Entry>) {
    && (forall i :: 0 <= i < |entries| ==> entries[i].networkId == networkId && entries[i].op.ts <= 100)
    && (forall i, j :: 0 <= i < j < |entries| ==> entries[i].op.ts < entries[j].op.ts)
  }

  lemma TimesTellApart(networkId: Id, entries: seq<Entry>, a: Entry, b: Entry)
    requires InTimeOrder(networkId, entries) && a in entries && b in entries && a.op.ts == b.op.ts
    ensures a == b
  {
    var i :| 0 <= i < |entries| && entries[i] == a;
    var j :| 0 <= j < |entries| && entries[j] == b;
    assert i < j || j < i || i == j;
  }

  lemma InTimeOrderSortsLast(cfg: Config, entries: seq<Entry>, e: Entry)
    requires InTimeOrder(cfg.networkId, entries + [e])
    ensures SortsLast(cfg, PlainWorld(), entries, e)
  {
    var all := entries + [e];
    assert all[|entries|] == e;
    forall a, b | a in all && b in all && a.op.ts == b.op.ts
      ensures a == b
    {
      TimesTellApart(cfg.networkId, all, a, b);
    }
    forall x | x in entries
      ensures x.op.ts < e.op.ts
    {
      var i :| 0 <= i < |entries| && entries[i] == x;
      assert all[i] == x;
    }
  }

  lemma FoldedEmpty(cfg: Config, o: Outside)
    ensures CollisionFree(cfg, o, []) && Folded(cfg, o, []) == EMPTY
  {
    ValidDistinct(cfg, o, []);
    NoElements(Arrange(Valid(cfg, o, [])));
  }

  /** A concrete case. Device 2 is a Peer and holds the originator secret; a Peer invite with
      nonce 7 is open. The local gate lets it publish the admission of device 3, and the fold
      ignores it. */
  lemma SecretAloneAdmitsNobody(sig: seq<u8>) returns (cfg: Config, entries: seq<Entry>, e: Entry)
    ensures SortsLast(cfg, PlainWorld(), entries, e) && CollisionFree(cfg, PlainWorld(), entries)
    ensures var r := Built(cfg, PlainWorld(), entries);
            && e.signer in r.members && e.op.Add? && e.op.node !in r.members
            && CheckInvite(r, ForPeer, e.op.citedNonce) == Ok
            && AdmitMember(r, true, e.signer, cfg.subnet, e.op.node, e.op.hostname, ForPeer, e.op.citedNonce, e.op.ts)
               == Publish(e.op)
            && Built(cfg, PlainWorld(), entries + [e]) == r
  {
    var o := PlainWorld();
    cfg := Config(9, 1, Ip(10, 99, 0, 0));
    var e1 := Entry(9, 1, Add(2, "a", Peer, Ip(10, 99, 0, 2), 0, 1), sig);
    var e2 := Entry(9, 1, SetInvite(ForPeer, 7, false, 2), sig);
    entries := [e1, e2];
    var s := PeerAndInvite(cfg, e1, e2);
    e := GatePasses(s, cfg.subnet, sig);
    InTimeOrderSortsLast(cfg, entries, e);
    FoldOneMore(cfg, o, entries, e);
    PeersAndStrangersAreIgnored(1, s, e);
  }

  lemma GatePasses(s: State, subnet: Ip, sig: seq<u8>) returns (e: Entry)
    requires s.members.Keys == {2} && s.members[2].role == Peer && !s.frozen
    requires s.peerInvite == Some(Invite(7, false))
    ensures var r := Finish(s, subnet);
            && e == Entry(9, 2, Add(3, "c", Peer, LowestFreeHost(r, subnet), 7, 3), sig)
            && 2 in r.members && 3 !in r.members && CheckInvite(r, ForPeer, 7) == Ok
            && AdmitMember(r, true, 2, subnet, 3, "c", ForPeer, 7, 3) == Publish(e.op)
  {
    var r := Finish(s, subnet);
    FinishShows(s, subnet, 2, ForPeer, 7);
    FinishShows(s, subnet, 3, ForPeer, 7);
    e := Entry(9, 2, Add(3, "c", Peer, LowestFreeHost(r, subnet), 7, 3), sig);
  }

  lemma PeerAndInvite(cfg: Config, e1: Entry, e2: Entry) returns (s: State)
    requires cfg.originatorId == 1 && InTimeOrder(cfg.networkId, [e1, e2]) && e1.signer == 1 && e2.signer == 1
    requires e1.op.Add? && e1.op.node == 2 && e1.op.role == Peer
    requires e2.op.SetInvite? && e2.op.kind == ForPeer && e2.op.nonce == 7 && !e2.op.singleUse
    ensures CollisionFree(cfg, PlainWorld(), [e1, e2]) && s == Folded(cfg, PlainWorld(), [e1, e2])
    ensures s.members.Keys == {2} && s.members[2].role == Peer && !s.frozen
    ensures s.peerInvite == Some(Invite(7, false))
  {
    var o := PlainWorld();
    assert [e1] + [e2] == [e1, e2] && [] + [e1] == [e1];
    assert [e1, e2][0] == e1 && InTimeOrder(cfg.networkId, [e1]);
    InTimeOrderSortsLast(cfg, [e1], e2);
    InTimeOrderSortsLast(cfg, [], e1);
    FoldedEmpty(cfg, o);
    FoldOneMore(cfg, o, [], e1);
    FoldOneMore(cfg, o, [e1], e2);
    s := Step(1, Step(1, EMPTY, e1), e2);
  }

  // ----- the forwarding table -----

  ghost predicate IsSmallest(id: Id, ids: set<Id>) {
    id in ids && forall k :: k in ids ==> id <= k
  }

  lemma {:induction false} SmallestExists(ids: set<Id>)
    requires ids != {}
    ensures exists id :: IsSmallest(id, ids)
  {
    var x :| x in ids;
    var rest := ids - {x};
    if rest != {} {
      SmallestExists(rest);
      var y :| IsSmallest(y, rest);
      assert ids == rest + {x};
      assert IsSmallest(if x < y then x else y, ids);
    } else {
      assert ids == {x};
      assert IsSmallest(x, ids);
    }
  }

  /** `table` says, for each address held by someone in `ids`, who of them is last. */
  ghost predicate MapsToLast(table: map<Ip, Id>, members: map<Id, Member>, ids: set<Id>)
    requires ids <= members.Keys
  {
    && (forall ip :: ip in table ==> table[ip] in ids && members[table[ip]].virtualIp == ip)
    && (forall id :: id in ids ==> members[id].virtualIp in table && id <= table[members[id].virtualIp])
  }

  /** `RouteTable::from_roster`: members are visited in id order, later ones overwrite. */
  method RouteTableFrom(members: map<Id, Member>) returns (byIp: map<Ip, Id>)
    ensures MapsToLast(byIp, members, members.Keys)
  {
    byIp := map[];
    var rest := members.Keys;
    ghost var done: set<Id> := {};
    while rest != {}
      invariant done + rest == members.Keys
      invariant forall a, b :: a in done && b in rest ==> a < b
      invariant MapsToLast(byIp, members, done)
      decreases rest
    {
      SmallestExists(rest);
      var id :| id in rest && forall k :: k in rest ==> id <= k by {
        var y :| IsSmallest(y, rest);
      }
      byIp := byIp[members[id].virtualIp := id];
      rest := rest - {id};
      done := done + {id};
    }
  }

  /** `RouteTable::lookup`. */
  function Lookup(byIp: map<Ip, Id>, ip: Ip): Option<Id> {
    if ip in byIp then Some(byIp[ip]) else None
  }

  /** On a resolved roster of at most 253 members the table is exact: looking up an
      address finds the member that has it, and only that one. */
  lemma LookupIsExact(table: map<Ip, Id>, members: map<Id, Member>, admitted: map<Id, nat>, subnet: Ip, ip: Ip, id: Id)
    requires |members| <= 253
    requires MapsToLast(table, Resolved(members, admitted, subnet), members.Keys)
    ensures Lookup(table, ip) == Some(id) <==> id in members && Resolved(members, admitted, subnet)[id].virtualIp == ip
  {
    if id in members && Resolved(members, admitted, subnet)[id].virtualIp == ip {
      AddressesAreDistinct(members, admitted, subnet, id, table[ip]);
    }
  }
}
