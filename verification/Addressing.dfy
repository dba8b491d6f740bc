/** The virtual-address allocator (`assign_ips`): members are taken in admission
    order, each gets its recorded host if that is free and otherwise the next
    free host going forward, wrapping from .254 to .2. */
module Addressing {
  import opened Ordering

  /** The usable hosts of the /24. */
  predicate IsHost(h: int) {
    2 <= h <= 254
  }

  /** Where probing starts: the recorded host if it is usable, else .2. */
  function Start(recorded: nat): (h: nat)
    ensures IsHost(h)
  {
    if IsHost(recorded) then recorded else 2
  }

  /** How many forward steps lead from host `s` to host `q`. */
  function Dist(s: int, q: int): int {
    if s <= q then q - s else q - s + 253
  }

  /** `p` is the first free host met when walking forward from `s`. */
  ghost predicate NearestFree(s: int, taken: set<nat>, p: nat) {
    IsHost(p) && p !in taken && forall q: nat :: IsHost(q) && Dist(s, q) < Dist(s, p) ==> q in taken
  }

  function NextHost(h: nat): (next: nat)
    requires IsHost(h)
    ensures IsHost(next)
  {
    if h >= 254 then 2 else h + 1
  }

  /** Walk on from `h`, having started at `s`: to the first free host, or back to `s`
      once every host is taken. */
  function Walk(s: nat, h: nat, taken: set<nat>): (r: nat)
    requires IsHost(s) && IsHost(h)
    ensures IsHost(r)
    decreases 252 - Dist(s, h)
  {
    if h !in taken then h
    else if NextHost(h) == s then s
    else Walk(s, NextHost(h), taken)
  }

  /** The host a member starting at `s` ends up with. */
  function Pick(s: nat, taken: set<nat>): (h: nat)
    requires IsHost(s)
    ensures IsHost(h)
  {
    Walk(s, s, taken)
  }

  lemma {:induction false} WalkEnds(s: nat, h: nat, taken: set<nat>, f: nat)
    requires IsHost(s) && IsHost(h) && IsHost(f) && f !in taken
    requires forall q: nat :: IsHost(q) && Dist(s, q) < Dist(s, h) ==> q in taken
    ensures NearestFree(s, taken, Walk(s, h, taken))
    decreases 252 - Dist(s, h)
  {
    if h in taken {
      forall q: nat | IsHost(q) && Dist(s, q) <= Dist(s, h)
        ensures q in taken
      {
        assert Dist(s, q) == Dist(s, h) ==> q == h;
      }
      assert NextHost(h) != s;
      WalkEnds(s, NextHost(h), taken, f);
    }
  }

  lemma NearestUnique(s: int, taken: set<nat>, p: nat, q: nat)
    requires IsHost(s) && NearestFree(s, taken, p) && NearestFree(s, taken, q)
    ensures p == q
  {
  }

  /** With fewer than 253 hosts taken the walk always ends on a free one. */
  lemma PickIsNearest(s: nat, taken: set<nat>)
    requires IsHost(s) && |taken| < 253
    ensures NearestFree(s, taken, Pick(s, taken))
  {
    var f := FreeHost(taken, 254);
    WalkEnds(s, s, taken, f);
  }

  lemma PickIs(s: nat, taken: set<nat>, p: nat)
    requires IsHost(s) && NearestFree(s, taken, p)
    ensures Pick(s, taken) == p
  {
    WalkEnds(s, s, taken, p);
    NearestUnique(s, taken, p, Pick(s, taken));
  }

  /** Fewer than `top - 1` taken numbers leave one of `2..=top` free. */
  lemma {:induction false} FreeHost(taken: set<nat>, top: nat) returns (f: nat)
    requires 2 <= top && |taken| < top - 1
    ensures 2 <= f <= top && f !in taken
  {
    if top !in taken {
      f := top;
    } else {
      f := FreeHost(taken - {top}, top - 1);
    }
  }

  /** The probing loop, with the source's cap of 253 tries. */
  method Probe(recorded: nat, taken: set<nat>) returns (host: nat)
    ensures host == Pick(Start(recorded), taken)
  {
    var s := Start(recorded);
    host := s;
    var tries := 0;
    while host in taken && tries < 253
      invariant 0 <= tries <= 253 && IsHost(host)
      invariant tries < 253 ==> Dist(s, host) == tries && Pick(s, taken) == Walk(s, host, taken)
      invariant tries == 253 ==> host == s == Pick(s, taken)
    {
      host := if host >= 254 then 2 else host + 1;
      tries := tries + 1;
    }
  }

  // ----- serving a roll -----
  //
  // A roll is the members' recorded last octets in admission order; member `i` is
  // the one whose record is `roll[i]`.

  /** The hosts occupied once the first `n` members are served. */
  function Taken(roll: seq<nat>, n: nat): set<nat>
    requires n <= |roll|
    decreases n, 0
  {
    if n == 0 then {} else Taken(roll, n - 1) + {HostAt(roll, n - 1)}
  }

  /** The host member `i` is given. */
  function HostAt(roll: seq<nat>, i: nat): (h: nat)
    requires i < |roll|
    ensures IsHost(h)
    decreases i, 1
  {
    Pick(Start(roll[i]), Taken(roll, i))
  }

  /** The occupied hosts are exactly the ones given out. */
  lemma {:induction false} TakenHas(roll: seq<nat>, n: nat, i: nat)
    requires i < n <= |roll|
    ensures HostAt(roll, i) in Taken(roll, n)
  {
    if i < n - 1 {
      TakenHas(roll, n - 1, i);
    }
  }

  lemma {:induction false} TakenFrom(roll: seq<nat>, n: nat, h: nat) returns (i: nat)
    requires n <= |roll| && h in Taken(roll, n)
    ensures i < n && HostAt(roll, i) == h && IsHost(h)
  {
    if h in Taken(roll, n - 1) {
      i := TakenFrom(roll, n - 1, h);
    } else {
      i := n - 1;
    }
  }

  lemma {:induction false} TakenGrows(roll: seq<nat>, m: nat, n: nat)
    requires m <= n <= |roll|
    ensures Taken(roll, m) <= Taken(roll, n)
    decreases n
  {
    if m < n {
      TakenGrows(roll, m, n - 1);
    }
  }

  lemma {:induction false} TakenCount(roll: seq<nat>, n: nat)
    requires n <= |roll|
    ensures |Taken(roll, n)| <= n
  {
    if n > 0 {
      TakenCount(roll, n - 1);
    }
  }

  /** With at most 253 members the probe never gives up: each member gets the
      nearest host that the members before it left free. */
  lemma GetsNearest(roll: seq<nat>, i: nat)
    requires i < |roll| <= 253
    ensures NearestFree(Start(roll[i]), Taken(roll, i), HostAt(roll, i))
  {
    TakenCount(roll, i);
    PickIsNearest(Start(roll[i]), Taken(roll, i));
  }

  /** So no two of them share an address. */
  lemma HostsDistinct(roll: seq<nat>, i: nat, j: nat)
    requires i < j < |roll| <= 253
    ensures HostAt(roll, i) != HostAt(roll, j)
  {
    GetsNearest(roll, j);
    TakenHas(roll, j, i);
  }

  // ----- one member leaves -----

  /** Freeing host `g` changes the walk from `s` only if `g` is met before its end. */
  lemma NearestAfterFreeing(s: int, taken: set<nat>, h: nat, g: nat)
    requires IsHost(s) && NearestFree(s, taken, h) && g in taken && IsHost(g)
    ensures NearestFree(s, taken - {g}, if Dist(s, g) < Dist(s, h) then g else h)
  {
  }

  /** One hole before a step leaves one hole after it, and a member who finds the
      host it starts from free finds it free in both worlds. */
  lemma HoleStep(full: set<nat>, g: nat, s: nat) returns (hole: nat)
    requires g in full && IsHost(g) && IsHost(s) && |full| < 253
    ensures hole in full + {Pick(s, full)}
    ensures full - {g} + {Pick(s, full - {g})} == full + {Pick(s, full)} - {hole}
    ensures Pick(s, full) == s ==> Pick(s, full - {g}) == s
  {
    PickIsNearest(s, full);
    var h := Pick(s, full);
    hole := if Dist(s, g) < Dist(s, h) then h else g;
    NearestAfterFreeing(s, full, h, g);
    PickIs(s, full - {g}, if Dist(s, g) < Dist(s, h) then g else h);
  }

  /** Members before the one who left are served as before. */
  lemma {:induction false} SamePrefix(roll: seq<nat>, other: seq<nat>, n: nat)
    requires n <= |roll| && n <= |other| && roll[..n] == other[..n]
    ensures Taken(roll, n) == Taken(other, n)
    ensures forall i :: 0 <= i < n ==> HostAt(roll, i) == HostAt(other, i)
  {
    if n > 0 {
      assert roll[..n - 1] == roll[..n][..n - 1] && other[..n - 1] == other[..n][..n - 1];
      assert roll[n - 1] == roll[..n][n - 1] && other[n - 1] == other[..n][n - 1];
      SamePrefix(roll, other, n - 1);
    }
  }

  /** Up to the one who leaves, both rolls agree. */
  lemma PrefixUnchanged(roll: seq<nat>, k: nat)
    requires k < |roll|
    ensures Taken(Without(roll, k), k) == Taken(roll, k)
    ensures forall i :: 0 <= i < k ==> HostAt(Without(roll, k), i) == HostAt(roll, i)
  {
    SamePrefix(roll, Without(roll, k), k);
  }

  /** After that, the thinner roll serves the same record one turn earlier. */
  lemma ThinStep(roll: seq<nat>, k: nat, m: nat, thin: set<nat>)
    requires k < m < |roll| && Taken(Without(roll, k), m - 1) == thin
    ensures Taken(Without(roll, k), m) == thin + {Pick(Start(roll[m]), thin)}
    ensures HostAt(Without(roll, k), m - 1) == Pick(Start(roll[m]), thin)
  {
    WithoutAt(roll, k, m - 1);
  }

  /** Serving member `m` moves the hole at most from `g` to where `m` would have sat. */
  lemma HoleMoves(roll: seq<nat>, k: nat, m: nat, g: nat) returns (hole: nat)
    requires k < m < |roll| <= 253
    requires g in Taken(roll, m) && Taken(Without(roll, k), m - 1) == Taken(roll, m) - {g}
    ensures hole in Taken(roll, m + 1)
    ensures Taken(Without(roll, k), m) == Taken(roll, m + 1) - {hole}
    ensures HostAt(roll, m) == Start(roll[m]) ==> HostAt(Without(roll, k), m - 1) == Start(roll[m])
  {
    var full := Taken(roll, m);
    ThinStep(roll, k, m, full - {g});
    var from := TakenFrom(roll, m, g);
    TakenCount(roll, m);
    hole := HoleStep(full, g, Start(roll[m]));
  }

  /** Member `k` leaves: after any number of members are served, exactly one host is
      free that was occupied before, and none is occupied that was free. */
  lemma {:induction false} RemovalLeavesOneHole(roll: seq<nat>, k: nat, n: nat) returns (hole: nat)
    requires k < n <= |roll| <= 253
    ensures hole in Taken(roll, n)
    ensures Taken(Without(roll, k), n - 1) == Taken(roll, n) - {hole}
    decreases n
  {
    if k == n - 1 {
      hole := HostAt(roll, k);
      GetsNearest(roll, k);
      PrefixUnchanged(roll, k);
    } else {
      var g := RemovalLeavesOneHole(roll, k, n - 1);
      hole := HoleMoves(roll, k, n - 1, g);
    }
  }

  /** Where member `i` of the old roll is found once member `k` is gone. */
  function Shifted(i: nat, k: nat): nat
    requires i != k
  {
    if i < k then i else i - 1
  }

  /** A member on the host it starts from keeps its address whoever else leaves. */
  lemma OwnHostIsKept(roll: seq<nat>, k: nat, i: nat)
    requires k < |roll| <= 253 && i < |roll| && i != k
    requires HostAt(roll, i) == Start(roll[i])
    ensures HostAt(Without(roll, k), Shifted(i, k)) == HostAt(roll, i)
  {
    if i < k {
      PrefixUnchanged(roll, k);
    } else {
      var g := RemovalLeavesOneHole(roll, k, i);
      var hole := HoleMoves(roll, k, i, g);
    }
  }

  // ----- a member who is not on its own host can be moved -----

  /** Member `k`'s host lies on member `i`'s way to its own, and no member between
      them has a host there. */
  ghost predicate LastOnTheWay(roll: seq<nat>, k: nat, i: nat)
    requires k < i < |roll|
  {
    var s := Start(roll[i]);
    var d := Dist(s, HostAt(roll, i));
    Dist(s, HostAt(roll, k)) < d && forall j :: k < j < i ==> Dist(s, HostAt(roll, j)) >= d
  }

  lemma {:induction false} LatestBelow(roll: seq<nat>, n: nat, s: nat, d: nat) returns (k: nat)
    requires n <= |roll|
    requires exists j :: 0 <= j < n && Dist(s, HostAt(roll, j)) < d
    ensures k < n && Dist(s, HostAt(roll, k)) < d
    ensures forall j :: k < j < n ==> Dist(s, HostAt(roll, j)) >= d
    decreases n
  {
    if Dist(s, HostAt(roll, n - 1)) < d {
      k := n - 1;
    } else {
      k := LatestBelow(roll, n - 1, s, d);
    }
  }

  /** A walk from `z` that ends on `p` does not pass `g` if, seen from `s`, a host `h`
      that is still free lies between `g` and `p`. */
  lemma WalkMissesHole(z: int, taken: set<nat>, p: nat, g: nat, s: int, h: nat)
    requires IsHost(z) && IsHost(s) && IsHost(g) && IsHost(h)
    requires NearestFree(z, taken, p) && h !in taken
    requires Dist(s, g) < Dist(s, h) < Dist(s, p)
    ensures NearestFree(z, taken - {g}, p)
  {
  }

  /** A member between `k` and `i` does not notice that `k`'s host is free. */
  lemma BetweenUnmoved(roll: seq<nat>, k: nat, m: nat, i: nat)
    requires k < m < i < |roll| <= 253 && LastOnTheWay(roll, k, i)
    ensures Pick(Start(roll[m]), Taken(roll, m) - {HostAt(roll, k)}) == HostAt(roll, m)
    ensures HostAt(roll, m) != HostAt(roll, k)
  {
    var p, h, g := HostAt(roll, m), HostAt(roll, i), HostAt(roll, k);
    GetsNearest(roll, m);
    GetsNearest(roll, i);
    TakenGrows(roll, m, i);
    HostsDistinct(roll, m, i);
    HostsDistinct(roll, k, m);
    assert Dist(Start(roll[i]), p) != Dist(Start(roll[i]), h);
    WalkMissesHole(Start(roll[m]), Taken(roll, m), p, g, Start(roll[i]), h);
    PickIs(Start(roll[m]), Taken(roll, m) - {g}, p);
  }

  /** So up to member `i` the hole stays where `k`'s host was. */
  lemma {:induction false} HoleStays(roll: seq<nat>, k: nat, n: nat, i: nat)
    requires k < n <= i < |roll| <= 253 && LastOnTheWay(roll, k, i)
    ensures Taken(Without(roll, k), n - 1) == Taken(roll, n) - {HostAt(roll, k)}
    decreases n
  {
    var m := n - 1;
    if k == m {
      GetsNearest(roll, k);
      PrefixUnchanged(roll, k);
    } else {
      HoleStays(roll, k, m, i);
      BetweenUnmoved(roll, k, m, i);
      ThinStep(roll, k, m, Taken(roll, m) - {HostAt(roll, k)});
      assert Taken(roll, n) == Taken(roll, m) + {HostAt(roll, m)};
    }
  }

  /** Some departure moves a member who is not on the host it starts from. */
  lemma DisplacedMemberMoves(roll: seq<nat>, i: nat) returns (k: nat)
    requires i < |roll| <= 253 && HostAt(roll, i) != Start(roll[i])
    ensures k < i && HostAt(Without(roll, k), i - 1) != HostAt(roll, i)
  {
    var s, h := Start(roll[i]), HostAt(roll, i);
    GetsNearest(roll, i);
    assert Dist(s, s) < Dist(s, h) && s in Taken(roll, i);
    var j := TakenFrom(roll, i, s);
    k := LatestBelow(roll, i, s, Dist(s, h));
    HoleStays(roll, k, i, i);
    var g := HostAt(roll, k);
    ThinStep(roll, k, i, Taken(roll, i) - {g});
    TakenHas(roll, i, k);
    NearestAfterFreeing(s, Taken(roll, i), h, g);
    PickIs(s, Taken(roll, i) - {g}, g);
  }

  /** Who can be moved by a departure: exactly the members who are not on the host
      they start from. */
  lemma StableExactlyOnOwnHost(roll: seq<nat>, i: nat)
    requires i < |roll| <= 253
    ensures (forall k :: 0 <= k < |roll| && k != i ==> HostAt(Without(roll, k), Shifted(i, k)) == HostAt(roll, i))
            <==> HostAt(roll, i) == Start(roll[i])
  {
    if HostAt(roll, i) == Start(roll[i]) {
      forall k | 0 <= k < |roll| && k != i
        ensures HostAt(Without(roll, k), Shifted(i, k)) == HostAt(roll, i)
      {
        OwnHostIsKept(roll, k, i);
      }
    } else {
      var k := DisplacedMemberMoves(roll, i);
      assert Shifted(i, k) == i - 1;
    }
  }

  // ----- one member joins -----

  /** `roll` with the record `x` put in at place `k`. */
  function Inserted(roll: seq<nat>, k: nat, x: nat): (wide: seq<nat>)
    requires k <= |roll|
    ensures |wide| == |roll| + 1
    ensures forall i :: 0 <= i < |wide| ==> wide[i] == if i < k then roll[i] else if i == k then x else roll[i - 1]
  {
    roll[..k] + [x] + roll[k..]
  }

  /** Taking a host that is not where the walk from `s` ends does not change the walk. */
  lemma NearestAfterTaking(s: int, taken: set<nat>, h: nat, x: nat)
    requires IsHost(s) && NearestFree(s, taken, h) && x != h
    ensures NearestFree(s, taken + {x}, h)
  {
  }

  /** A member after the newcomer is served one turn later, with the newcomer's host taken
      as well. */
  lemma WideStep(roll: seq<nat>, k: nat, x: nat, m: nat, h: nat)
    requires k <= m < |roll| < 253 && IsHost(h) && h !in Taken(roll, m + 1)
    requires Taken(Inserted(roll, k, x), m + 1) == Taken(roll, m) + {h}
    ensures HostAt(Inserted(roll, k, x), m + 1) == HostAt(roll, m)
    ensures Taken(Inserted(roll, k, x), m + 2) == Taken(roll, m + 1) + {h}
  {
    var s := Start(roll[m]);
    GetsNearest(roll, m);
    NearestAfterTaking(s, Taken(roll, m), HostAt(roll, m), h);
    PickIs(s, Taken(roll, m) + {h}, HostAt(roll, m));
  }

  lemma {:induction false} WideTaken(roll: seq<nat>, k: nat, x: nat, n: nat, h: nat)
    requires k <= n <= |roll| < 253 && h == HostAt(Inserted(roll, k, x), k) && h !in Taken(roll, n)
    ensures Taken(Inserted(roll, k, x), n + 1) == Taken(roll, n) + {h}
    decreases n
  {
    if n == k {
      InsertedPrefix(roll, k, x);
    } else {
      var m := n - 1;
      assert h !in Taken(roll, m) by {
        TakenGrows(roll, m, n);
      }
      WideTaken(roll, k, x, m, h);
      WideStep(roll, k, x, m, h);
    }
  }

  lemma InsertedPrefix(roll: seq<nat>, k: nat, x: nat)
    requires k <= |roll|
    ensures Taken(Inserted(roll, k, x), k) == Taken(roll, k)
    ensures forall i :: 0 <= i < k ==> HostAt(Inserted(roll, k, x), i) == HostAt(roll, i)
  {
    assert roll[..k] == Inserted(roll, k, x)[..k];
    SamePrefix(roll, Inserted(roll, k, x), k);
  }

  /** A newcomer who records a host nobody holds gets exactly that host, wherever it
      falls in the processing order... */
  lemma NewcomerGetsItsHost(roll: seq<nat>, k: nat, x: nat)
    requires k <= |roll| < 253 && IsHost(x) && x !in Taken(roll, |roll|)
    ensures HostAt(Inserted(roll, k, x), k) == x
  {
    TakenGrows(roll, k, |roll|);
    InsertedPrefix(roll, k, x);
    PickIs(x, Taken(roll, k), x);
  }

  lemma NewcomerMovesNoLater(roll: seq<nat>, k: nat, x: nat, i: nat, h: nat)
    requires k <= i < |roll| < 253 && h == HostAt(Inserted(roll, k, x), k) && h !in Taken(roll, |roll|)
    ensures HostAt(Inserted(roll, k, x), i + 1) == HostAt(roll, i)
  {
    TakenGrows(roll, i, |roll|);
    TakenGrows(roll, i + 1, |roll|);
    WideTaken(roll, k, x, i, h);
    WideStep(roll, k, x, i, h);
  }

  /** ...and whatever it records, a newcomer whose host was nobody's moves nobody. */
  lemma NewcomerMovesNobody(roll: seq<nat>, k: nat, x: nat, j: nat)
    requires k <= |roll| < 253 && j <= |roll| && j != k
    requires HostAt(Inserted(roll, k, x), k) !in Taken(roll, |roll|)
    ensures HostAt(Inserted(roll, k, x), j) == HostAt(roll, Shifted(j, k))
  {
    if j < k {
      InsertedPrefix(roll, k, x);
    } else {
      NewcomerMovesNoLater(roll, k, x, j - 1, HostAt(Inserted(roll, k, x), k));
    }
  }

  /** Members served before the newcomer never move. */
  lemma EarlierNeverMove(roll: seq<nat>, k: nat, x: nat, j: nat)
    requires j < k <= |roll|
    ensures HostAt(Inserted(roll, k, x), j) == HostAt(roll, j)
  {
    InsertedPrefix(roll, k, x);
  }

  // ----- what is recorded -----

  /** A usable recorded host that nobody before holds is given as it is. */
  lemma RecordIsHonoured(roll: seq<nat>, i: nat)
    requires i < |roll| && 2 <= roll[i] <= 254 && roll[i] !in Taken(roll, i)
    ensures HostAt(roll, i) == roll[i]
  {
  }

  /** For a record that is no usable host, the search begins at .2. */
  lemma UnusableRecordMeansTwo(roll: seq<nat>, i: nat)
    requires i < |roll| && !(2 <= roll[i] <= 254) && 2 !in Taken(roll, i)
    ensures HostAt(roll, i) == 2
  {
  }

  /** Two members recorded on .254: the search goes on at .2. */
  lemma SearchWrapsAround()
    ensures HostAt([254, 254], 0) == 254 && HostAt([254, 254], 1) == 2
  {
    assert Taken([254, 254], 0) == {} && HostAt([254, 254], 0) == 254;
    assert Taken([254, 254], 1) == {254};
    PickIs(254, {254}, 2);
  }
}
