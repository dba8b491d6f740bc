/** The allocator's results by node id: who gets which host when members are served in
    a given order. */
module Turns {
  import opened Ordering
  import opened Addressing

  /** The order members are served in: pairwise different ids. */
  ghost predicate IsRoll(order: seq<Keyed<nat>>) {
    forall i, j :: 0 <= i < j < |order| ==> order[i].minor != order[j].minor
  }

  ghost predicate HasId(order: seq<Keyed<nat>>, id: nat) {
    exists i :: 0 <= i < |order| && order[i].minor == id
  }

  /** A member's turn. */
  ghost function TurnOf(order: seq<Keyed<nat>>, id: nat): (i: nat)
    requires HasId(order, id)
    ensures i < |order| && order[i].minor == id
  {
    var i :| 0 <= i < |order| && order[i].minor == id;
    i
  }

  /** The recorded hosts, in serving order. */
  function Records(order: seq<Keyed<nat>>): (roll: seq<nat>)
    ensures |roll| == |order| && forall i :: 0 <= i < |order| ==> roll[i] == order[i].item
  {
    seq(|order|, i requires 0 <= i < |order| => order[i].item)
  }

  /** The host a member is given. */
  ghost function HostIn(order: seq<Keyed<nat>>, id: nat): (h: nat)
    requires HasId(order, id)
    ensures IsHost(h)
  {
    HostAt(Records(order), TurnOf(order, id))
  }

  lemma TurnIs(order: seq<Keyed<nat>>, i: nat)
    requires IsRoll(order) && i < |order|
    ensures HasId(order, order[i].minor) && TurnOf(order, order[i].minor) == i
    ensures HostIn(order, order[i].minor) == HostAt(Records(order), i)
  {
    assert HasId(order, order[i].minor);
  }

  /** Two members of a roll of at most 253 never share a host. */
  lemma HostsInDistinct(order: seq<Keyed<nat>>, a: nat, b: nat)
    requires IsRoll(order) && |order| <= 253 && HasId(order, a) && HasId(order, b)
    ensures HostIn(order, a) == HostIn(order, b) <==> a == b
  {
    var i, j := TurnOf(order, a), TurnOf(order, b);
    if i < j {
      HostsDistinct(Records(order), i, j);
    } else if j < i {
      HostsDistinct(Records(order), j, i);
    }
  }

  lemma RecordsWithout(order: seq<Keyed<nat>>, k: nat)
    requires k < |order|
    ensures Records(Without(order, k)) == Without(Records(order), k)
  {
    forall i | 0 <= i < |order| - 1
      ensures Records(Without(order, k))[i] == Without(Records(order), k)[i]
    {
      WithoutAt(order, k, i);
      WithoutAt(Records(order), k, i);
    }
  }

  lemma WithoutIsRoll(order: seq<Keyed<nat>>, k: nat)
    requires IsRoll(order) && k < |order|
    ensures IsRoll(Without(order, k))
  {
    forall i, j | 0 <= i < j < |order| - 1
      ensures Without(order, k)[i].minor != Without(order, k)[j].minor
    {
      WithoutAt(order, k, i);
      WithoutAt(order, k, j);
    }
  }

  /** Where a member is found once the one at turn `k` is gone. */
  lemma HostInWithout(order: seq<Keyed<nat>>, k: nat, id: nat)
    requires IsRoll(order) && k < |order| && HasId(order, id) && order[k].minor != id
    ensures HasId(Without(order, k), id)
    ensures HostIn(Without(order, k), id) == HostAt(Without(Records(order), k), Shifted(TurnOf(order, id), k))
    ensures TurnOf(Without(order, k), id) == Shifted(TurnOf(order, id), k)
  {
    var j := Shifted(TurnOf(order, id), k);
    WithoutAt(order, k, j);
    WithoutIsRoll(order, k);
    TurnIs(Without(order, k), j);
    RecordsWithout(order, k);
  }

  lemma KeptAtHome(order: seq<Keyed<nat>>, k: nat, id: nat)
    requires IsRoll(order) && k < |order| <= 253 && HasId(order, id) && order[k].minor != id
    requires HostIn(order, id) == Start(order[TurnOf(order, id)].item)
    ensures HasId(Without(order, k), id) && HostIn(Without(order, k), id) == HostIn(order, id)
  {
    HostInWithout(order, k, id);
    OwnHostIsKept(Records(order), k, TurnOf(order, id));
  }

  lemma MovedByNeighbour(order: seq<Keyed<nat>>, id: nat) returns (k: nat)
    requires IsRoll(order) && |order| <= 253 && HasId(order, id)
    requires HostIn(order, id) != Start(order[TurnOf(order, id)].item)
    ensures k < |order| && order[k].minor != id
    ensures HasId(Without(order, k), id) && HostIn(Without(order, k), id) != HostIn(order, id)
  {
    var i := TurnOf(order, id);
    k := DisplacedMemberMoves(Records(order), i);
    assert Shifted(i, k) == i - 1;
    HostInWithout(order, k, id);
  }

  lemma RecordsWith(wide: seq<Keyed<nat>>, k: nat)
    requires k < |wide|
    ensures Records(wide) == Inserted(Records(Without(wide, k)), k, wide[k].item)
  {
    forall i | 0 <= i < |wide|
      ensures Records(wide)[i] == Inserted(Records(Without(wide, k)), k, wide[k].item)[i]
    {
      if i != k {
        WithoutAt(wide, k, Shifted(i, k));
      }
    }
  }

  /** The member at turn `k` recorded a host that the others leave free. */
  ghost predicate RecordsFreeHost(wide: seq<Keyed<nat>>, k: nat)
    requires k < |wide|
  {
    IsHost(wide[k].item) && wide[k].item !in Taken(Records(Without(wide, k)), |wide| - 1)
  }

  /** Then it has that host. */
  lemma NewcomerOwn(wide: seq<Keyed<nat>>, k: nat)
    requires IsRoll(wide) && k < |wide| <= 253 && RecordsFreeHost(wide, k)
    ensures HasId(wide, wide[k].minor) && HostIn(wide, wide[k].minor) == wide[k].item
  {
    RecordsWith(wide, k);
    TurnIs(wide, k);
    NewcomerGetsItsHost(Records(Without(wide, k)), k, wide[k].item);
  }

  /** The member at turn `k` is given a host that the others leave free. */
  ghost predicate GetsFreeHost(wide: seq<Keyed<nat>>, k: nat)
    requires k < |wide|
  {
    HostAt(Records(wide), k) !in Taken(Records(Without(wide, k)), |wide| - 1)
  }

  /** Then the others are where they would be without it. */
  lemma NewcomerOthers(wide: seq<Keyed<nat>>, k: nat, id: nat)
    requires IsRoll(wide) && k < |wide| <= 253 && GetsFreeHost(wide, k)
    requires HasId(wide, id) && id != wide[k].minor
    ensures HasId(Without(wide, k), id) && HostIn(wide, id) == HostIn(Without(wide, k), id)
  {
    HostInWithout(wide, k, id);
    RecordsWith(wide, k);
    NewcomerMovesNobody(Records(Without(wide, k)), k, wide[k].item, TurnOf(wide, id));
  }

  /** Whatever it is given, those before it are where they would be without it. */
  lemma NewcomerEarlier(wide: seq<Keyed<nat>>, k: nat, id: nat)
    requires IsRoll(wide) && k < |wide| && HasId(wide, id) && TurnOf(wide, id) < k
    ensures HasId(Without(wide, k), id) && HostIn(wide, id) == HostIn(Without(wide, k), id)
  {
    HostInWithout(wide, k, id);
    RecordsWith(wide, k);
    EarlierNeverMove(Records(Without(wide, k)), k, wide[k].item, TurnOf(wide, id));
  }

  /** Every host occupied at the end is some member's. */
  lemma OccupiedBySomeone(order: seq<Keyed<nat>>, h: nat)
    requires IsRoll(order) && h in Taken(Records(order), |order|)
    ensures exists id :: HasId(order, id) && HostIn(order, id) == h
  {
    var i := TakenFrom(Records(order), |order|, h);
    TurnIs(order, i);
  }
}
