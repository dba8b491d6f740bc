/** What the fold guarantees over every bag of entries and every run. */
module RosterRules {
  import opened Basics
  import opened Ordering
  import opened Roster

  // ----- steps -----

  /** Nothing counts that is signed by neither the originator nor a current Controller. */
  lemma PeersAndStrangersAreIgnored(orig: Id, s: State, e: Entry)
    requires e.signer != orig && !IsController(s, e.signer)
    ensures Step(orig, s, e) == s
  {
  }

  /** What is the originator's alone: freezing, the Controller invite, and changing a
      member who stays without admitting it again. */
  lemma WithoutTheOriginator(orig: Id, s: State, e: Entry, id: Id)
    requires e.signer != orig
    ensures var s' := Step(orig, s, e);
            && s'.frozen == s.frozen && s'.controllerInvite == s.controllerInvite
            && (id in s.members && id in s'.members && !(e.op.Add? && e.op.node == id) ==>
                  s'.members[id] == s.members[id])
            && (id !in s.members && id in s'.members ==> e.op.Add? && e.op.node == id)
            && (id in s.members && id !in s'.members ==> s.members[id].role.Peer?)
  {
  }

  /** A new invite replaces the old one: afterwards the old nonce is stale, the new one is
      good unless it is single-use and was used up before, and invites of the other kind
      check as they did. */
  lemma RegeneratingInvalidates(orig: Id, s: State, e: Entry, subnet: Ip, kind: InviteKind, nonce: Nonce)
    requires e.op.SetInvite? && Authorized(orig, s, e)
    ensures CheckInvite(Finish(Step(orig, s, e), subnet), kind, nonce) ==
            if kind != e.op.kind then CheckInvite(Finish(s, subnet), kind, nonce)
            else if nonce != e.op.nonce then Stale
            else if (kind.ForController? || e.op.singleUse) && nonce in s.consumed then Spent
            else Ok
  {
  }

  /** Admission times are kept for exactly the members. */
  lemma {:induction false} AdmittedAreMembers(orig: Id, xs: seq<Keyed<Entry>>)
    ensures Run(orig, EMPTY, xs).admitted.Keys == Run(orig, EMPTY, xs).members.Keys
  {
    if xs != [] {
      AdmittedAreMembers(orig, xs[..|xs| - 1]);
    }
  }

  /** No admission time lies after the last entry. */
  lemma {:induction false} AdmittedBy(orig: Id, xs: seq<Keyed<Entry>>, bound: nat)
    requires forall x :: x in xs ==> x.item.op.ts <= bound
    ensures forall id :: id in Run(orig, EMPTY, xs).admitted ==> Run(orig, EMPTY, xs).admitted[id] <= bound
  {
    if xs != [] {
      assert xs[|xs| - 1] in xs;
      AdmittedBy(orig, xs[..|xs| - 1], bound);
    }
  }

  // ----- only insiders matter -----

  /** `circle` holds the originator and everyone whom its members try to admit. */
  ghost predicate ClosedCircle(orig: Id, circle: set<Id>, xs: seq<Keyed<Entry>>) {
    && orig in circle
    && forall x :: x in xs && x.item.signer in circle && x.item.op.Add? ==> x.item.op.node in circle
  }

  ghost function SignedWithin(circle: set<Id>): Keyed<Entry> -> bool {
    (x: Keyed<Entry>) => x.item.signer in circle
  }

  /** Dropping every entry signed outside a closed circle changes nothing. */
  lemma {:induction false} RunWithinCircle(orig: Id, circle: set<Id>, xs: seq<Keyed<Entry>>)
    requires ClosedCircle(orig, circle, xs)
    ensures Run(orig, EMPTY, xs) == Run(orig, EMPTY, Keep(xs, SignedWithin(circle)))
    ensures Run(orig, EMPTY, xs).members.Keys <= circle
  {
    if xs != [] {
      var n := |xs| - 1;
      var last := xs[n];
      assert last in xs;
      RunWithinCircle(orig, circle, xs[..n]);
      var front := Keep(xs[..n], SignedWithin(circle));
      if last.item.signer in circle {
        assert Keep(xs, SignedWithin(circle)) == front + [last];
        RunAppend(orig, EMPTY, front, last);
      } else {
        PeersAndStrangersAreIgnored(orig, Run(orig, EMPTY, xs[..n]), last.item);
        assert Keep(xs, SignedWithin(circle)) == front;
      }
    }
  }

  lemma RunAppend(orig: Id, s: State, xs: seq<Keyed<Entry>>, x: Keyed<Entry>)
    ensures Run(orig, s, xs + [x]) == Step(orig, Run(orig, s, xs), x.item)
  {
    assert (xs + [x])[..|xs|] == xs;
  }

  /** As `ClosedCircle`, for the authentic entries of a bag. */
  ghost predicate ClosedOver(cfg: Config, o: Outside, circle: set<Id>, entries: seq<Entry>) {
    && cfg.originatorId in circle
    && forall e :: e in entries && Authentic(cfg, o, e) && e.signer in circle && e.op.Add? ==> e.op.node in circle
  }

  ghost function ValidWithin(cfg: Config, o: Outside, circle: set<Id>, entries: seq<Entry>): set<Keyed<Entry>> {
    set x | x in Valid(cfg, o, entries) && SignedWithin(circle)(x)
  }

  lemma FoldedWithin(cfg: Config, o: Outside, circle: set<Id>, entries: seq<Entry>)
    requires CollisionFree(cfg, o, entries) && ClosedOver(cfg, o, circle, entries)
    ensures DistinctIds(ValidWithin(cfg, o, circle, entries))
    ensures Folded(cfg, o, entries) == Run(cfg.originatorId, EMPTY, Arrange(ValidWithin(cfg, o, circle, entries)))
  {
    ValidDistinct(cfg, o, entries);
    var xs := Arrange(Valid(cfg, o, entries));
    forall x | x in xs
      ensures x in Valid(cfg, o, entries)
    {
      assert x in Elements(xs);
    }
    RunWithinCircle(cfg.originatorId, circle, xs);
    ArrangeKeep(Valid(cfg, o, entries), SignedWithin(circle), ValidWithin(cfg, o, circle, entries));
  }

  /** Two bags build the same roster as soon as they hold the same authentic entries
      signed inside some circle that contains the originator and is closed under
      admission. Reordering, repeating, adding unauthentic entries, and adding or
      deleting anything signed by outsiders, however many and however they vouch for
      each other, leaves the roster as it was. */
  lemma OutsidersHaveNoSay(cfg: Config, o: Outside, circle: set<Id>, entries: seq<Entry>, others: seq<Entry>)
    requires CollisionFree(cfg, o, entries) && CollisionFree(cfg, o, others)
    requires ClosedOver(cfg, o, circle, entries) && ClosedOver(cfg, o, circle, others)
    requires forall e :: Authentic(cfg, o, e) && e.signer in circle ==> (e in entries <==> e in others)
    ensures Built(cfg, o, entries) == Built(cfg, o, others)
  {
    FoldedWithin(cfg, o, circle, entries);
    FoldedWithin(cfg, o, circle, others);
    assert ValidWithin(cfg, o, circle, entries) == ValidWithin(cfg, o, circle, others);
  }

  /** Without a word from the originator there is no roster. */
  lemma NoOriginatorNoMembers(cfg: Config, o: Outside, entries: seq<Entry>)
    requires CollisionFree(cfg, o, entries)
    requires forall e :: e in entries && Authentic(cfg, o, e) ==> e.signer != cfg.originatorId
    ensures Built(cfg, o, entries) == Roster(map[], false, None, None, None, false, false)
  {
    OutsidersHaveNoSay(cfg, o, {cfg.originatorId}, entries, []);
    NoElements(Arrange(Valid(cfg, o, [])));
  }

  // ----- removed members -----

  /** No entry of the run brings `c` in. */
  ghost predicate NeverAdmitted(orig: Id, s: State, xs: seq<Keyed<Entry>>, c: Id) {
    forall k :: 0 <= k < |xs| && xs[k].item.op.Add? && xs[k].item.op.node == c ==>
      !Authorized(orig, Run(orig, s, xs[..k]), xs[k].item)
  }

  ghost function NotSignedBy(c: Id): Keyed<Entry> -> bool {
    (x: Keyed<Entry>) => x.item.signer != c
  }

  lemma {:induction false} OutsiderIsIgnored(orig: Id, s: State, xs: seq<Keyed<Entry>>, c: Id)
    requires c != orig && c !in s.members && NeverAdmitted(orig, s, xs, c)
    ensures c !in Run(orig, s, xs).members
    ensures Run(orig, s, xs) == Run(orig, s, Keep(xs, NotSignedBy(c)))
  {
    if xs != [] {
      var n := |xs| - 1;
      var front := Keep(xs[..n], NotSignedBy(c));
      forall k | 0 <= k < n
        ensures xs[..n][k] == xs[k] && xs[..n][..k] == xs[..k]
      {
      }
      OutsiderIsIgnored(orig, s, xs[..n], c);
      WithoutAdmission(orig, Run(orig, s, xs[..n]), xs[n].item, c);
      if xs[n].item.signer == c {
        PeersAndStrangersAreIgnored(orig, Run(orig, s, xs[..n]), xs[n].item);
        assert Keep(xs, NotSignedBy(c)) == front;
      } else {
        assert Keep(xs, NotSignedBy(c)) == front + [xs[n]];
        RunAppend(orig, s, front, xs[n]);
      }
    }
  }

  lemma WithoutAdmission(orig: Id, s: State, e: Entry, c: Id)
    requires c !in s.members && !(e.op.Add? && e.op.node == c && Authorized(orig, s, e))
    ensures c !in Step(orig, s, e).members
  {
  }

  /** After an authorized removal of `c`, and until it is admitted again, deleting everything
      that `c` signs changes nothing. */
  lemma RemovedMembersAreIgnored(orig: Id, s: State, e: Entry, xs: seq<Keyed<Entry>>)
    requires e.op.Remove? && e.op.node != orig && Authorized(orig, s, e)
    requires NeverAdmitted(orig, Step(orig, s, e), xs, e.op.node)
    ensures Run(orig, Step(orig, s, e), xs) == Run(orig, Step(orig, s, e), Keep(xs, NotSignedBy(e.op.node)))
  {
    OutsiderIsIgnored(orig, Step(orig, s, e), xs, e.op.node);
  }

  lemma {:induction false} RunSum(orig: Id, s: State, xs: seq<Keyed<Entry>>, ys: seq<Keyed<Entry>>)
    ensures Run(orig, s, xs + ys) == Run(orig, Run(orig, s, xs), ys)
  {
    if ys == [] {
      assert xs + ys == xs;
    } else {
      var n := |ys| - 1;
      RunSum(orig, s, xs, ys[..n]);
      assert (xs + ys)[..|xs + ys| - 1] == xs + ys[..n];
    }
  }

  /** `k` is the place of `e` among the arranged entries. */
  ghost predicate IsPlace(xs: seq<Keyed<Entry>>, x: Keyed<Entry>, k: nat) {
    && k <= |xs|
    && (forall i :: 0 <= i < k ==> Before(xs[i], x))
    && (forall i :: k <= i < |xs| ==> Before(x, xs[i]))
  }

  /** Whenever an entry arrives, it is judged at the place that its timestamp gives it: if it
      is authorized in the state the earlier entries leave, it takes effect there and the
      later ones follow; if not, the fold is as it would be without it. */
  lemma EntriesTakeTheirPlace(cfg: Config, o: Outside, entries: seq<Entry>, e: Entry) returns (k: nat)
    requires CollisionFree(cfg, o, entries + [e]) && Authentic(cfg, o, e) && e !in entries
    requires CollisionFree(cfg, o, entries) && DistinctIds(Valid(cfg, o, entries))
    ensures var xs := Arrange(Valid(cfg, o, entries));
            && IsPlace(xs, Key(o, e), k)
            && var s := Run(cfg.originatorId, EMPTY, xs[..k]);
               Folded(cfg, o, entries + [e])
               == if Authorized(cfg.originatorId, s, e)
                  then Run(cfg.originatorId, Effect(cfg.originatorId, s, e), xs[k..])
                  else Folded(cfg, o, entries)
  {
    var orig := cfg.originatorId;
    ValidDistinct(cfg, o, entries + [e]);
    k := PlaceOf(cfg, o, entries, e);
    var xs, all := Arrange(Valid(cfg, o, entries)), Arrange(Valid(cfg, o, entries + [e]));
    RunSum(orig, EMPTY, xs[..k] + [Key(o, e)], xs[k..]);
    RunAppend(orig, EMPTY, xs[..k], Key(o, e));
    RunSum(orig, EMPTY, xs[..k], xs[k..]);
    assert xs == xs[..k] + xs[k..];
  }

  lemma ValidWith(cfg: Config, o: Outside, entries: seq<Entry>, e: Entry)
    requires CollisionFree(cfg, o, entries + [e]) && Authentic(cfg, o, e) && e !in entries
    ensures Key(o, e) in Valid(cfg, o, entries + [e])
    ensures Valid(cfg, o, entries) == Valid(cfg, o, entries + [e]) - {Key(o, e)}
  {
    var all := entries + [e];
    assert all[|entries|] == e;
    assert forall a :: a in all <==> a in entries || a == e;
  }

  lemma PlaceOf(cfg: Config, o: Outside, entries: seq<Entry>, e: Entry) returns (k: nat)
    requires CollisionFree(cfg, o, entries + [e]) && Authentic(cfg, o, e) && e !in entries
    requires DistinctIds(Valid(cfg, o, entries)) && DistinctIds(Valid(cfg, o, entries + [e]))
    ensures var xs := Arrange(Valid(cfg, o, entries));
            && IsPlace(xs, Key(o, e), k)
            && Arrange(Valid(cfg, o, entries + [e])) == xs[..k] + [Key(o, e)] + xs[k..]
  {
    ValidWith(cfg, o, entries, e);
    var all := Arrange(Valid(cfg, o, entries + [e]));
    k := ArrangeWithout(Valid(cfg, o, entries + [e]), Key(o, e));
    var xs := Without(all, k);
    assert xs[..k] == all[..k] && xs[k..] == all[k + 1..];
    assert all == all[..k] + [all[k]] + all[k + 1..];
    forall i | 0 <= i < |xs|
      ensures xs[i] == all[if i < k then i else i + 1]
    {
      WithoutAt(all, k, i);
    }
  }

  // ----- how many Controllers there can be -----

  /** An originator entry that may make one member a Controller. */
  predicate Grants(orig: Id, e: Entry) {
    e.signer == orig && (e.op.Add? || e.op.SetRole?) && e.op.role.Controller?
  }

  /** An originator entry that offers a Controller invite. */
  predicate Offers(orig: Id, e: Entry) {
    e.signer == orig && e.op.SetInvite? && e.op.kind.ForController?
  }

  ghost function GrantsIn(orig: Id, s: set<Keyed<Entry>>): set<Keyed<Entry>> {
    set x | x in s && Grants(orig, x.item)
  }

  ghost function NoncesOffered(orig: Id, s: set<Keyed<Entry>>): set<Nonce> {
    set x | x in s && Offers(orig, x.item) :: x.item.op.nonce
  }

  ghost function Controllers(members: map<Id, Member>): set<Id> {
    set id | id in members && members[id].role.Controller?
  }

  /** A standing Controller invite is the originator's, and single-use. */
  ghost predicate OfferIsOriginators(orig: Id, s: State, seen: set<Keyed<Entry>>) {
    s.controllerInvite.Some? ==>
      s.controllerInvite.value.singleUse && s.controllerInvite.value.nonce in NoncesOffered(orig, seen)
  }

  /** At every point of the fold the Controllers are paid for by originator grants and
      by spent Controller nonces. */
  ghost predicate PaidFor(orig: Id, s: State, seen: set<Keyed<Entry>>) {
    |Controllers(s.members)| <= |GrantsIn(orig, seen)| + |s.consumed * NoncesOffered(orig, seen)|
  }

  /** Only a grant or an admission on a Controller invite makes a Controller. */
  lemma NewControllers(orig: Id, s: State, e: Entry)
    ensures var s' := Step(orig, s, e);
            && s.consumed <= s'.consumed
            && (Controllers(s'.members) <= Controllers(s.members)
                || ((e.op.Add? || e.op.SetRole?)
                    && e.op.role.Controller?
                    && Controllers(s'.members) <= Controllers(s.members) + {e.op.node}
                    && (e.signer == orig || (e.op.Add? && Authorized(orig, s, e)))))
  {
  }

  lemma StepKeepsOffer(orig: Id, s: State, x: Keyed<Entry>, seen: set<Keyed<Entry>>)
    requires OfferIsOriginators(orig, s, seen)
    ensures OfferIsOriginators(orig, Step(orig, s, x.item), seen + {x})
  {
    assert NoncesOffered(orig, seen) <= NoncesOffered(orig, seen + {x});
  }

  lemma StepStaysPaid(orig: Id, s: State, x: Keyed<Entry>, seen: set<Keyed<Entry>>)
    requires OfferIsOriginators(orig, s, seen) && PaidFor(orig, s, seen) && x !in seen
    ensures PaidFor(orig, Step(orig, s, x.item), seen + {x})
  {
    var e := x.item;
    var s' := Step(orig, s, e);
    var spent := s.consumed * NoncesOffered(orig, seen);
    var spent' := s'.consumed * NoncesOffered(orig, seen + {x});
    assert GrantsIn(orig, seen + {x}) == if Grants(orig, e) then GrantsIn(orig, seen) + {x} else GrantsIn(orig, seen);
    assert NoncesOffered(orig, seen) <= NoncesOffered(orig, seen + {x});
    NewControllers(orig, s, e);
    SubsetSize(spent, spent');
    if Controllers(s'.members) <= Controllers(s.members) {
      SubsetSize(Controllers(s'.members), Controllers(s.members));
    } else {
      SubsetSize(Controllers(s'.members), Controllers(s.members) + {e.op.node});
      if !Grants(orig, e) {
        NonceIsSpent(orig, s, e, NoncesOffered(orig, seen));
        SubsetSize(spent + {e.op.citedNonce}, spent');
      }
    }
  }

  /** An admission on a Controller invite spends a nonce of the originator's. */
  lemma NonceIsSpent(orig: Id, s: State, e: Entry, nonces: set<Nonce>)
    requires e.op.Add? && e.op.role.Controller? && e.signer != orig && Authorized(orig, s, e)
    requires s.controllerInvite.Some? ==> s.controllerInvite.value.singleUse && s.controllerInvite.value.nonce in nonces
    ensures e.op.citedNonce in nonces && e.op.citedNonce !in s.consumed && e.op.citedNonce in Step(orig, s, e).consumed
  {
  }

  lemma LastElement<T>(xs: seq<Keyed<T>>)
    requires Ascending(xs) && xs != []
    ensures Elements(xs) == Elements(xs[..|xs| - 1]) + {xs[|xs| - 1]}
    ensures xs[|xs| - 1] !in Elements(xs[..|xs| - 1])
  {
    var n := |xs| - 1;
    assert forall i :: 0 <= i < n ==> Before(xs[i], xs[n]);
    assert xs == xs[..n] + [xs[n]];
  }

  lemma {:induction false} RunKeepsOffer(orig: Id, xs: seq<Keyed<Entry>>)
    requires Ascending(xs)
    ensures OfferIsOriginators(orig, Run(orig, EMPTY, xs), Elements(xs))
  {
    if xs != [] {
      var n := |xs| - 1;
      RunKeepsOffer(orig, xs[..n]);
      LastElement(xs);
      StepKeepsOffer(orig, Run(orig, EMPTY, xs[..n]), xs[n], Elements(xs[..n]));
    }
  }

  lemma {:induction false} RunStaysPaid(orig: Id, xs: seq<Keyed<Entry>>)
    requires Ascending(xs)
    ensures PaidFor(orig, Run(orig, EMPTY, xs), Elements(xs))
  {
    if xs == [] {
      assert Controllers(EMPTY.members) == {};
    } else {
      var n := |xs| - 1;
      RunStaysPaid(orig, xs[..n]);
      RunKeepsOffer(orig, xs[..n]);
      LastElement(xs);
      StepStaysPaid(orig, Run(orig, EMPTY, xs[..n]), xs[n], Elements(xs[..n]));
    }
  }

  /** Controllers never multiply on their own: there are at most as many as the
      originator's Controller `Add`s and `SetRole`s plus the distinct nonces of the
      originator's Controller invites. */
  lemma ControllersAreBounded(cfg: Config, o: Outside, entries: seq<Entry>)
    requires CollisionFree(cfg, o, entries)
    ensures |Controllers(Built(cfg, o, entries).members)|
            <= |GrantsIn(cfg.originatorId, Valid(cfg, o, entries))|
               + |NoncesOffered(cfg.originatorId, Valid(cfg, o, entries))|
  {
    ValidDistinct(cfg, o, entries);
    var s := Folded(cfg, o, entries);
    RunStaysPaid(cfg.originatorId, Arrange(Valid(cfg, o, entries)));
    var nonces := NoncesOffered(cfg.originatorId, Valid(cfg, o, entries));
    SubsetSize(s.consumed * nonces, nonces);
    assert Controllers(Built(cfg, o, entries).members) == Controllers(s.members);
  }

  // ----- single-use invites -----

  lemma {:induction false} ConsumedGrows(orig: Id, xs: seq<Keyed<Entry>>, i: nat, j: nat)
    requires i <= j <= |xs|
    ensures Run(orig, EMPTY, xs[..i]).consumed <= Run(orig, EMPTY, xs[..j]).consumed
    decreases j
  {
    if i < j {
      ConsumedGrows(orig, xs, i, j - 1);
      assert xs[..j][..j - 1] == xs[..j - 1];
    }
  }

  /** Over the whole fold, two admissions that use up a single-use invite cite
      different nonces: each such nonce admits once. */
  lemma SingleUseAdmitsOnce(orig: Id, xs: seq<Keyed<Entry>>, i: nat, j: nat)
    requires i < j < |xs|
    requires UsesUpInvite(orig, Run(orig, EMPTY, xs[..i]), xs[i].item)
    requires UsesUpInvite(orig, Run(orig, EMPTY, xs[..j]), xs[j].item)
    ensures xs[i].item.op.citedNonce != xs[j].item.op.citedNonce
  {
    assert xs[..i + 1][..i] == xs[..i];
    assert xs[i].item.op.citedNonce in Run(orig, EMPTY, xs[..i + 1]).consumed;
    ConsumedGrows(orig, xs, i + 1, j);
  }

  // ----- an entry that sorts last -----

  /** `e` is authentic and sorts after every authentic entry of the bag. */
  ghost predicate SortsLast(cfg: Config, o: Outside, entries: seq<Entry>, e: Entry) {
    && CollisionFree(cfg, o, entries + [e])
    && Authentic(cfg, o, e)
    && forall x :: x in Valid(cfg, o, entries) ==> Before(x, Key(o, e))
  }

  /** Such an entry is one more step on the state the others leave. */
  lemma FoldOneMore(cfg: Config, o: Outside, entries: seq<Entry>, e: Entry)
    requires SortsLast(cfg, o, entries, e)
    ensures CollisionFree(cfg, o, entries)
    ensures Folded(cfg, o, entries + [e]) == Step(cfg.originatorId, Folded(cfg, o, entries), e)
  {
    forall a | a in entries
      ensures a in entries + [e]
    {
    }
    ValidDistinct(cfg, o, entries);
    ValidDistinct(cfg, o, entries + [e]);
    var s := Valid(cfg, o, entries);
    assert Valid(cfg, o, entries + [e]) == s + {Key(o, e)};
    ArrangeLast(s, Key(o, e));
    var xs := Arrange(s);
    assert (xs + [Key(o, e)])[..|xs|] == xs;
  }

  /** When the signer was admitted, it was not after an entry that sorts last. */
  lemma AdmittedBeforeLast(cfg: Config, o: Outside, entries: seq<Entry>, e: Entry)
    requires SortsLast(cfg, o, entries, e) && CollisionFree(cfg, o, entries)
    ensures var s := Folded(cfg, o, entries);
            s.admitted.Keys == s.members.Keys && forall id :: id in s.admitted ==> s.admitted[id] <= e.op.ts
  {
    ValidDistinct(cfg, o, entries);
    var xs := Arrange(Valid(cfg, o, entries));
    AdmittedAreMembers(cfg.originatorId, xs);
    forall x | x in xs
      ensures x.item.op.ts <= e.op.ts
    {
      assert x in Elements(xs);
      assert Before(x, Key(o, e));
    }
    AdmittedBy(cfg.originatorId, xs, e.op.ts);
  }

  /** What callers see of a fold state. */
  lemma FinishShows(s: State, subnet: Ip, id: Id, kind: InviteKind, nonce: Nonce)
    ensures var r := Finish(s, subnet);
            && r.frozen == s.frozen
            && (id in r.members <==> id in s.members)
            && (RoleOf(r, id) == Controller <==> IsController(s, id))
            && (CheckInvite(r, kind, nonce) == Ok <==>
                InviteOpens(s, if kind.ForPeer? then Peer else Controller, nonce))
  {
  }

  lemma NewDeviceEffect(orig: Id, s: State, e: Entry)
    requires e.op.Add? && e.op.node !in s.members
    requires IsController(s, e.signer) ==> e.signer in s.admitted && s.admitted[e.signer] <= e.op.ts
    ensures e.op.node in Step(orig, s, e).members <==>
            !s.frozen && (e.signer == orig || (IsController(s, e.signer) && InviteOpens(s, e.op.role, e.op.citedNonce)))
  {
  }

  lemma NewDeviceStep(orig: Id, s: State, e: Entry, subnet: Ip)
    requires e.op.Add? && e.op.node !in s.members
    requires IsController(s, e.signer) ==> e.signer in s.admitted && s.admitted[e.signer] <= e.op.ts
    ensures var r := Finish(s, subnet);
            e.op.node in Finish(Step(orig, s, e), subnet).members <==>
            !r.frozen && (e.signer == orig
                          || (RoleOf(r, e.signer) == Controller
                              && CheckInvite(r, KindFor(e.op.role), e.op.citedNonce) == Ok))
  {
    NewDeviceEffect(orig, s, e);
    FinishShows(s, subnet, e.signer, KindFor(e.op.role), e.op.citedNonce);
    FinishShows(Step(orig, s, e), subnet, e.op.node, ForPeer, 0);
  }

  /** The answer a joiner gets from `check_invite` is the fold's answer: an `Add` of a
      new device that sorts last takes effect exactly when the roster is not frozen
      and the signer is the originator, or a Controller whose cited nonce checks Ok. */
  lemma CheckInvitePredictsTheFold(cfg: Config, o: Outside, entries: seq<Entry>, e: Entry)
    requires SortsLast(cfg, o, entries, e) && e.op.Add?
    requires CollisionFree(cfg, o, entries) && e.op.node !in Built(cfg, o, entries).members
    ensures var r := Built(cfg, o, entries);
            e.op.node in Built(cfg, o, entries + [e]).members <==>
            !r.frozen && (e.signer == cfg.originatorId
                          || (RoleOf(r, e.signer) == Controller
                              && CheckInvite(r, KindFor(e.op.role), e.op.citedNonce) == Ok))
  {
    var s := Folded(cfg, o, entries);
    FoldOneMore(cfg, o, entries, e);
    AdmittedBeforeLast(cfg, o, entries, e);
    FinishShows(s, cfg.subnet, e.op.node, ForPeer, 0);
    NewDeviceStep(cfg.originatorId, s, e, cfg.subnet);
  }

  // ----- what a Controller can and cannot do to another one -----

  /** A non-originator entry changes the role of a member who stays in exactly one way: an
      open admission of that member, again, at another role. */
  lemma OnlyReAdmissionChangesRoles(orig: Id, s: State, e: Entry, c: Id)
    requires e.signer != orig && c in s.members && c in Step(orig, s, e).members
    ensures Step(orig, s, e).members[c].role != s.members[c].role <==>
            && e.op.Add? && e.op.node == c && e.op.role != s.members[c].role
            && !s.frozen
            && IsController(s, e.signer) && e.signer in s.admitted && s.admitted[e.signer] <= e.op.ts
            && var invite := if e.op.role.Peer? then s.peerInvite else s.controllerInvite;
               invite.Some? && invite.value.nonce == e.op.citedNonce
               && !(invite.value.singleUse && e.op.citedNonce in s.consumed)
  {
  }

  /** A non-originator entry ends `c`'s Controller role in exactly one way: an open
      re-admission of `c` as a Peer. `Remove` and `SetRole` never do. */
  lemma OnlyReAdmissionDemotes(orig: Id, s: State, e: Entry, c: Id)
    requires e.signer != orig && IsController(s, c)
    ensures IsController(Step(orig, s, e), c) <==>
            !(&& e.op.Add? && e.op.node == c && e.op.role.Peer?
              && !s.frozen
              && IsController(s, e.signer) && e.signer in s.admitted && s.admitted[e.signer] <= e.op.ts
              && s.peerInvite.Some? && s.peerInvite.value.nonce == e.op.citedNonce
              && !(s.peerInvite.value.singleUse && e.op.citedNonce in s.consumed))
  {
  }

  /** So while nobody re-admits `c` and the originator is silent, `c` stays a Controller. */
  lemma {:induction false} ControllersAreSafeFromEachOther(orig: Id, s: State, xs: seq<Keyed<Entry>>, c: Id)
    requires IsController(s, c)
    requires forall x :: x in xs ==> x.item.signer != orig && !(x.item.op.Add? && x.item.op.node == c)
    ensures IsController(Run(orig, s, xs), c)
  {
    if xs != [] {
      var n := |xs| - 1;
      assert xs[n] in xs;
      ControllersAreSafeFromEachOther(orig, s, xs[..n], c);
      OnlyReAdmissionDemotes(orig, Run(orig, s, xs[..n]), xs[n].item, c);
    }
  }

  function Founding(sig: seq<u8>, second: Role, kind: InviteKind): (xs: seq<Keyed<Entry>>)
    ensures |xs| == 3
  {
    [Keyed(1, 1, Entry(9, 1, Add(2, "a", Controller, Ip(10, 99, 0, 2), 0, 1), sig)),
     Keyed(2, 2, Entry(9, 1, Add(3, "b", second, Ip(10, 99, 0, 3), 0, 2), sig)),
     Keyed(3, 3, Entry(9, 1, SetInvite(kind, 7, false, 3), sig))]
  }

  /** The originator, 1, has admitted Controller 2 and then member 3, and opened an invite. */
  lemma Founded(sig: seq<u8>, second: Role, kind: InviteKind)
    ensures var s := Run(1, EMPTY, Founding(sig, second, kind));
            && IsController(s, 2) && 2 in s.admitted && s.admitted[2] == 1
            && 3 in s.members && s.members[3].role == second
            && !s.frozen && s.consumed == {}
            && (kind.ForPeer? ==> s.peerInvite == Some(Invite(7, false)))
            && (kind.ForController? ==> s.controllerInvite == Some(Invite(7, true)))
  {
    var xs := Founding(sig, second, kind);
    assert xs == [xs[0]] + [xs[1]] + [xs[2]];
    RunAppend(1, EMPTY, [], xs[0]);
    RunAppend(1, EMPTY, [xs[0]], xs[1]);
    RunAppend(1, EMPTY, [xs[0]] + [xs[1]], xs[2]);
    assert [] + [xs[0]] == [xs[0]];
  }

  /** The one way is real. With an open Peer invite, Controller 2 re-admits Controller 3 as
      a Peer... */
  lemma ReAdmissionCanDemote(sig: seq<u8>) returns (xs: seq<Keyed<Entry>>, last: Keyed<Entry>)
    ensures Ascending(xs + [last])
    ensures last.item.signer != 1
    ensures IsController(Run(1, EMPTY, xs), 3)
    ensures 3 in Run(1, EMPTY, xs + [last]).members && !IsController(Run(1, EMPTY, xs + [last]), 3)
  {
    xs := Founding(sig, Controller, ForPeer);
    last := Keyed(4, 4, Entry(9, 2, Add(3, "b", Peer, Ip(10, 99, 0, 3), 7, 4), sig));
    Founded(sig, Controller, ForPeer);
    RunAppend(1, EMPTY, xs, last);
  }

  /** ...and on an open Controller invite it re-admits Peer 3 as a Controller. Role changes
      are therefore not the originator's alone. */
  lemma ReAdmissionCanPromote(sig: seq<u8>) returns (xs: seq<Keyed<Entry>>, last: Keyed<Entry>)
    ensures Ascending(xs + [last])
    ensures last.item.signer != 1
    ensures 3 in Run(1, EMPTY, xs).members && !IsController(Run(1, EMPTY, xs), 3)
    ensures IsController(Run(1, EMPTY, xs + [last]), 3)
  {
    xs := Founding(sig, Peer, ForController);
    last := Keyed(4, 4, Entry(9, 2, Add(3, "b", Controller, Ip(10, 99, 0, 3), 7, 4), sig));
    Founded(sig, Peer, ForController);
    RunAppend(1, EMPTY, xs, last);
  }

  // ----- freezing -----

  /** While frozen, and until the originator unfreezes, nobody gets in. */
  lemma {:induction false} FrozenAdmitsNobody(orig: Id, s: State, xs: seq<Keyed<Entry>>)
    requires s.frozen
    requires forall x :: x in xs && x.item.op.Freeze? && x.item.signer == orig ==> x.item.op.frozen
    ensures Run(orig, s, xs).frozen && Run(orig, s, xs).members.Keys <= s.members.Keys
  {
    if xs != [] {
      assert xs[|xs| - 1] in xs;
      FrozenAdmitsNobody(orig, s, xs[..|xs| - 1]);
    }
  }
}
