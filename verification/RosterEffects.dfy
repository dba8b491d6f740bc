/** What each kind of entry does, said of whole runs: who is heard, and whose word is last. */
module RosterEffects {
  import opened Basics
  import opened Ordering
  import opened Roster
  import opened RosterRules

  lemma RunAt(orig: Id, s: State, xs: seq<Keyed<Entry>>, k: nat)
    requires k < |xs|
    ensures Run(orig, s, xs[..k + 1]) == Step(orig, Run(orig, s, xs[..k]), xs[k].item)
  {
    assert xs[..k + 1][..k] == xs[..k];
  }

  // ----- freezing -----

  predicate IsFreeze(orig: Id, e: Entry) {
    e.op.Freeze? && e.signer == orig
  }

  /** `k` is where the originator spoke last about freezing, or -1 if it never did. */
  ghost predicate LastFreeze(orig: Id, xs: seq<Keyed<Entry>>, k: int) {
    && -1 <= k < |xs|
    && (k >= 0 ==> IsFreeze(orig, xs[k].item))
    && forall j :: k < j < |xs| ==> !IsFreeze(orig, xs[j].item)
  }

  /** Over every run, frozen is what the originator's last `Freeze` said. */
  lemma {:induction false} FrozenIsTheLastWord(orig: Id, s: State, xs: seq<Keyed<Entry>>, k: int)
    requires LastFreeze(orig, xs, k)
    ensures Run(orig, s, xs).frozen == if k < 0 then s.frozen else xs[k].item.op.frozen
  {
    if xs != [] {
      var n := |xs| - 1;
      if k < n {
        FrozenIsTheLastWord(orig, s, xs[..n], k);
      }
    }
  }

  /** Through the whole build: an originator `Freeze` that sorts last decides. */
  lemma LastFreezeDecides(cfg: Config, o: Outside, entries: seq<Entry>, e: Entry)
    requires SortsLast(cfg, o, entries, e) && CollisionFree(cfg, o, entries)
    requires e.op.Freeze? && e.signer == cfg.originatorId
    ensures Built(cfg, o, entries + [e]).frozen == e.op.frozen
    ensures Built(cfg, o, entries + [e]).members == Built(cfg, o, entries).members
  {
    FoldOneMore(cfg, o, entries, e);
  }

  /** While the last word is "frozen", an `Add` has no effect whoever signs it. Once it is
      not, one of the originator's always has. */
  lemma FreezeHoldsUntilLifted(orig: Id, s: State, xs: seq<Keyed<Entry>>, k: nat, j: nat)
    requires k < j < |xs| && LastFreeze(orig, xs[..j], k) && xs[j].item.op.Add?
    ensures var e := xs[j].item;
            && (xs[k].item.op.frozen ==> Run(orig, s, xs[..j + 1]) == Run(orig, s, xs[..j]))
            && (!xs[k].item.op.frozen && e.signer == orig ==>
                  e.op.node in Run(orig, s, xs[..j + 1]).members
                  && Run(orig, s, xs[..j + 1]).members[e.op.node]
                     == Member(e.op.hostname, e.op.role, e.op.virtualIp, orig))
  {
    FrozenIsTheLastWord(orig, s, xs[..j], k);
    RunAt(orig, s, xs, j);
  }

  // ----- the name -----

  /** The originator, or whoever is a Controller in state `s`. */
  predicate HasOffice(orig: Id, s: State, id: Id) {
    id == orig || (id in s.members && s.members[id].role == Controller)
  }

  predicate Names(orig: Id, s: State, e: Entry) {
    e.op.SetName? && HasOffice(orig, s, e.signer)
  }

  /** Entry `j` of the run sets the name. */
  ghost predicate NamesAt(orig: Id, s: State, xs: seq<Keyed<Entry>>, j: nat)
    requires j < |xs|
  {
    Names(orig, Run(orig, s, xs[..j]), xs[j].item)
  }

  lemma NamesAtPrefix(orig: Id, s: State, xs: seq<Keyed<Entry>>, n: nat, j: nat)
    requires j < n <= |xs|
    ensures NamesAt(orig, s, xs[..n], j) == NamesAt(orig, s, xs, j)
  {
    assert xs[..n][..j] == xs[..j];
  }

  lemma NameStep(orig: Id, s: State, e: Entry)
    ensures Step(orig, s, e).name == if Names(orig, s, e) then Some(e.op.name) else s.name
  {
  }

  /** The name is the one set last by the originator or a Controller of that moment. */
  lemma {:induction false} NameIsTheLastWord(orig: Id, s: State, xs: seq<Keyed<Entry>>, k: int)
    requires -1 <= k < |xs| && (k >= 0 ==> NamesAt(orig, s, xs, k))
    requires forall j :: k < j < |xs| ==> !NamesAt(orig, s, xs, j)
    ensures Run(orig, s, xs).name == if k < 0 then s.name else Some(xs[k].item.op.name)
  {
    if xs != [] {
      var n := |xs| - 1;
      NameStep(orig, Run(orig, s, xs[..n]), xs[n].item);
      if k < n {
        forall j | 0 <= j < n
          ensures NamesAt(orig, s, xs[..n], j) == NamesAt(orig, s, xs, j)
        {
          NamesAtPrefix(orig, s, xs, n, j);
        }
        assert !NamesAt(orig, s, xs, n);
        NameIsTheLastWord(orig, s, xs[..n], k);
      } else {
        assert NamesAt(orig, s, xs, n);
      }
    }
  }

  // ----- the invites -----

  predicate InvitesPeers(orig: Id, s: State, e: Entry) {
    e.op.SetInvite? && e.op.kind == ForPeer && HasOffice(orig, s, e.signer)
  }

  /** Entry `j` of the run sets the Peer invite. */
  ghost predicate InvitesAt(orig: Id, s: State, xs: seq<Keyed<Entry>>, j: nat)
    requires j < |xs|
  {
    InvitesPeers(orig, Run(orig, s, xs[..j]), xs[j].item)
  }

  lemma InvitesAtPrefix(orig: Id, s: State, xs: seq<Keyed<Entry>>, n: nat, j: nat)
    requires j < n <= |xs|
    ensures InvitesAt(orig, s, xs[..n], j) == InvitesAt(orig, s, xs, j)
  {
    assert xs[..n][..j] == xs[..j];
  }

  lemma PeerInviteStep(orig: Id, s: State, e: Entry)
    ensures Step(orig, s, e).peerInvite
            == if InvitesPeers(orig, s, e) then Some(Invite(e.op.nonce, e.op.singleUse)) else s.peerInvite
  {
  }

  /** The Peer invite is the one set last by the originator or a Controller of that moment. */
  lemma {:induction false} PeerInviteIsTheLastWord(orig: Id, s: State, xs: seq<Keyed<Entry>>, k: int)
    requires -1 <= k < |xs| && (k >= 0 ==> InvitesAt(orig, s, xs, k))
    requires forall j :: k < j < |xs| ==> !InvitesAt(orig, s, xs, j)
    ensures Run(orig, s, xs).peerInvite
            == if k < 0 then s.peerInvite else Some(Invite(xs[k].item.op.nonce, xs[k].item.op.singleUse))
  {
    if xs != [] {
      var n := |xs| - 1;
      PeerInviteStep(orig, Run(orig, s, xs[..n]), xs[n].item);
      if k < n {
        forall j | 0 <= j < n
          ensures InvitesAt(orig, s, xs[..n], j) == InvitesAt(orig, s, xs, j)
        {
          InvitesAtPrefix(orig, s, xs, n, j);
        }
        assert !InvitesAt(orig, s, xs, n);
        PeerInviteIsTheLastWord(orig, s, xs[..n], k);
      } else {
        assert InvitesAt(orig, s, xs, n);
      }
    }
  }

  predicate InvitesControllers(orig: Id, e: Entry) {
    e.op.SetInvite? && e.op.kind == ForController && e.signer == orig
  }

  /** The Controller invite is the originator's last one, and single-use whatever it says. */
  lemma {:induction false} ControllerInviteIsTheLastWord(orig: Id, s: State, xs: seq<Keyed<Entry>>, k: int)
    requires -1 <= k < |xs| && (k >= 0 ==> InvitesControllers(orig, xs[k].item))
    requires forall j :: k < j < |xs| ==> !InvitesControllers(orig, xs[j].item)
    ensures Run(orig, s, xs).controllerInvite
            == if k < 0 then s.controllerInvite else Some(Invite(xs[k].item.op.nonce, true))
  {
    if xs != [] {
      var n := |xs| - 1;
      if k < n {
        ControllerInviteIsTheLastWord(orig, s, xs[..n], k);
      }
    }
  }

  /** `e` is accepted in state `s` as a Controller's admission on a single-use invite. */
  ghost predicate SpendsInvite(orig: Id, s: State, e: Entry) {
    && e.op.Add? && e.signer != orig && !s.frozen
    && e.signer in s.members && s.members[e.signer].role == Controller
    && e.signer in s.admitted && s.admitted[e.signer] <= e.op.ts
    && var invite := if e.op.role == Peer then s.peerInvite else s.controllerInvite;
       invite == Some(Invite(e.op.citedNonce, true)) && e.op.citedNonce !in s.consumed
  }

  /** A nonce is spent exactly by an accepted admission on a single-use invite. */
  lemma {:induction false} SpentExactlyBySingleUse(orig: Id, s: State, xs: seq<Keyed<Entry>>, nonce: Nonce)
    ensures nonce in Run(orig, s, xs).consumed <==>
            || nonce in s.consumed
            || exists k :: 0 <= k < |xs| && SpendsInvite(orig, Run(orig, s, xs[..k]), xs[k].item)
                           && xs[k].item.op.citedNonce == nonce
  {
    if xs != [] {
      var n := |xs| - 1;
      SpentExactlyBySingleUse(orig, s, xs[..n], nonce);
      forall j | 0 <= j < n
        ensures xs[..n][..j] == xs[..j] && xs[..n][j] == xs[j]
      {
      }
      StepSpends(orig, Run(orig, s, xs[..n]), xs[n].item, nonce);
    }
  }

  lemma StepSpends(orig: Id, s: State, e: Entry, nonce: Nonce)
    ensures nonce in Step(orig, s, e).consumed <==>
            nonce in s.consumed || (SpendsInvite(orig, s, e) && e.op.citedNonce == nonce)
  {
  }

  /** What a joiner is told, from the fold's point of view. */
  lemma CheckInviteAnswers(s: State, subnet: Ip, kind: InviteKind, nonce: Nonce)
    ensures var standing := if kind == ForPeer then s.peerInvite else s.controllerInvite;
            var answer := CheckInvite(Finish(s, subnet), kind, nonce);
            && (answer == Stale <==> standing.None? || standing.value.nonce != nonce)
            && (answer == Spent <==> standing == Some(Invite(nonce, true)) && nonce in s.consumed)
  {
  }

  // ----- members -----

  /** What the originator is heard on, whatever the state: everything but an `Add` while
      frozen. For one member `b`. */
  lemma OriginatorIsHeard(orig: Id, s: State, e: Entry, b: Id)
    requires e.signer == orig
    ensures var s' := Step(orig, s, e);
            && (e.op.Add? && !s.frozen && b == e.op.node ==>
                  b in s'.members && s'.members[b] == Member(e.op.hostname, e.op.role, e.op.virtualIp, orig)
                  && b in s'.admitted && s'.admitted[b] == e.op.ts)
            && (e.op.Add? && s.frozen ==> s' == s)
            && (e.op.Remove? && b == e.op.node ==> b !in s'.members && b !in s'.admitted)
            && (e.op.SetRole? && b == e.op.node && b in s.members ==>
                  b in s'.members && s'.members[b] == s.members[b].(role := e.op.role))
            && ((e.op.Add? || e.op.Remove? || e.op.SetRole?) && b != e.op.node ==>
                  && (b in s'.members <==> b in s.members)
                  && (b in s.members ==> s'.members[b] == s.members[b])
                  && (b in s'.admitted <==> b in s.admitted)
                  && (b in s.admitted ==> s'.admitted[b] == s.admitted[b]))
            && (!(e.op.Add? || e.op.Remove? || e.op.SetRole?) ==>
                  s'.members == s.members && s'.admitted == s.admitted)
  {
  }

  /** What a Controller is heard on: evicting Peers, but nobody else. */
  lemma ControllersEvictPeers(orig: Id, s: State, e: Entry, b: Id)
    requires e.signer != orig && IsController(s, e.signer) && e.op.Remove? && b in s.members
    ensures b in Step(orig, s, e).members <==> !(b == e.op.node && s.members[b].role == Peer)
    ensures b in Step(orig, s, e).members ==> Step(orig, s, e).members[b] == s.members[b]
  {
  }

  /** The originator's word on the role of `c`. */
  predicate SetsRoleOf(orig: Id, e: Entry, c: Id) {
    e.op.SetRole? && e.signer == orig && e.op.node == c
  }

  /** A role set by the originator is the member's role for as long as it stays and the
      originator says nothing else and nobody admits it again. */
  lemma {:induction false} RoleIsTheLastWord(orig: Id, s: State, xs: seq<Keyed<Entry>>, k: nat, c: Id)
    requires k < |xs| && SetsRoleOf(orig, xs[k].item, c) && c in Run(orig, s, xs[..k]).members
    requires forall j :: k < j < |xs| ==> !SetsRoleOf(orig, xs[j].item, c)
    requires forall j :: k < j < |xs| ==> !(xs[j].item.op.Add? && xs[j].item.op.node == c)
    ensures c in Run(orig, s, xs).members ==> Run(orig, s, xs).members[c].role == xs[k].item.op.role
  {
    var n := |xs| - 1;
    if k < n {
      forall j | 0 <= j < n
        ensures xs[..n][..j] == xs[..j] && xs[..n][j] == xs[j]
      {
      }
      RoleIsTheLastWord(orig, s, xs[..n], k, c);
      RoleIsKept(orig, Run(orig, s, xs[..n]), xs[n].item, c);
    }
  }

  lemma RoleIsKept(orig: Id, s: State, e: Entry, c: Id)
    requires !SetsRoleOf(orig, e, c) && !(e.op.Add? && e.op.node == c)
    ensures c in Step(orig, s, e).members ==> c in s.members && Step(orig, s, e).members[c].role == s.members[c].role
  {
  }

  // ----- the bag -----

  /** Which entries count: those of this network, not after the ceiling, that verify. */
  lemma CountsExactly(cfg: Config, o: Outside, entries: seq<Entry>, e: Entry)
    requires CollisionFree(cfg, o, entries)
    ensures (exists x :: x in Valid(cfg, o, entries) && x.item == e) <==>
            e in entries && e.networkId == cfg.networkId && e.op.ts <= o.ceiling && o.verified(e)
  {
    if e in entries && e.networkId == cfg.networkId && e.op.ts <= o.ceiling && o.verified(e) {
      assert Key(o, e) in Valid(cfg, o, entries);
    }
  }

  /** In which order they count: by timestamp, then by content id. */
  lemma FoldsInTimeOrder(cfg: Config, o: Outside, entries: seq<Entry>, i: nat, j: nat)
    requires CollisionFree(cfg, o, entries) && DistinctIds(Valid(cfg, o, entries))
    requires i < j < |Arrange(Valid(cfg, o, entries))|
    ensures var a, b := Arrange(Valid(cfg, o, entries))[i].item, Arrange(Valid(cfg, o, entries))[j].item;
            a.op.ts < b.op.ts || (a.op.ts == b.op.ts && o.contentId(a) < o.contentId(b))
  {
    var xs := Arrange(Valid(cfg, o, entries));
    assert xs[i] in Elements(xs) && xs[j] in Elements(xs);
    assert Before(xs[i], xs[j]);
  }

  /** In which order members get their addresses: by admission time, then by id. */
  lemma ServedInAdmissionOrder(members: map<Id, Member>, admitted: map<Id, nat>, i: nat, j: nat)
    requires i < j < |Order(members, admitted)|
    ensures var a, b := Order(members, admitted)[i].minor, Order(members, admitted)[j].minor;
            && a in members && b in members
            && (a in admitted && b in admitted ==>
                  admitted[a] < admitted[b] || (admitted[a] == admitted[b] && a < b))
  {
    OrderSlots(members, admitted, i);
    OrderSlots(members, admitted, j);
    var order := Order(members, admitted);
    assert Before(order[i], order[j]);
  }

  /** What a built roster shows of the fold: everything but the addresses as it is. */
  lemma BuiltShowsTheFold(cfg: Config, o: Outside, entries: seq<Entry>, b: Id)
    requires CollisionFree(cfg, o, entries)
    ensures var r, s := Built(cfg, o, entries), Folded(cfg, o, entries);
            && r.frozen == s.frozen && r.name == s.name
            && r.peerInvite == s.peerInvite && r.controllerInvite == s.controllerInvite
            && (b in r.members <==> b in s.members)
            && (b in r.members ==>
                  && r.members[b].hostname == s.members[b].hostname
                  && r.members[b].role == s.members[b].role
                  && r.members[b].addedBy == s.members[b].addedBy)
  {
  }

  /** A reader's view of the roles and the standing invites. */
  lemma ReadersSee(r: Roster, id: Id)
    ensures RoleOf(r, id) == Controller <==> id in r.members && r.members[id].role == Controller
    ensures CurrentInvite(r, ForPeer) == r.peerInvite && CurrentInvite(r, ForController) == r.controllerInvite
  {
  }
}
