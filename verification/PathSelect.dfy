/** The path selector: never through our own tunnel, the user's relays ahead of other
    relays, and stickiness against flapping. */
module PathSelect {
  import opened Basics

  datatype IpAddr = V4(v4: u32) | V6(v6: nat)

  /** A network path; `rest` stands for ports and local addresses. */
  datatype FourTuple =
    | IpPath(remote: IpAddr, rest: nat)
    | RelayPath(url: string, rest: nat)
    | CustomPath(rest: nat)

  /** A path and its RTT in nanoseconds, unless its stats are gone. */
  datatype PathData = PathData(path: FourTuple, rtt: Option<nat>)

  /** The user's relay URLs, and the base of the active virtual /24 (0 when there is none). */
  datatype Selector = Selector(preferred: set<string>, subnet: u32)

  /** The IPv4 address in an address, looking through `::ffff:a.b.c.d`. */
  function MappedV4(ip: IpAddr): Option<u32> {
    match ip
    case V4(bits) => Some(bits)
    case V6(bits) => if bits / 0x1_0000_0000 == 0xffff then Some(bits % 0x1_0000_0000) else None
  }

  predicate InSubnet(base: u32, ip: IpAddr) {
    base != 0 && MappedV4(ip).Some? && MappedV4(ip).value / 0x100 == base / 0x100
  }

  /** The path runs through our own tunnel. */
  predicate IsLooped(sel: Selector, path: FourTuple) {
    path.IpPath? && InSubnet(sel.subnet, path.remote)
  }

  const IPV6_RTT_ADVANTAGE: int := 3_000_000
  const RTT_SWITCHING_MIN: int := 5_000_000

  /** Tier first, then biased RTT. */
  datatype Key = Key(tier: nat, rtt: int)

  function KeyOf(sel: Selector, path: FourTuple, rtt: nat): Key {
    match path
    case RelayPath(url, _) => Key(if url in sel.preferred then 1 else 2, rtt)
    case IpPath(remote, _) => Key(0, if remote.V6? then rtt - IPV6_RTT_ADVANTAGE else rtt)
    case CustomPath(_) => Key(0, rtt)
  }

  predicate Less(a: Key, b: Key) {
    a.tier < b.tier || (a.tier == b.tier && a.rtt < b.rtt)
  }

  /** Across tiers at once; within a tier only for a clear gain. */
  predicate ShouldSwitch(current: Key, best: Key) {
    if best.tier != current.tier then best.tier < current.tier
    else best.rtt + RTT_SWITCHING_MIN <= current.rtt
  }

  /** Entry `i` can be selected. */
  predicate Usable(sel: Selector, paths: seq<PathData>, i: nat) {
    i < |paths| && !IsLooped(sel, paths[i].path) && paths[i].rtt.Some?
  }

  function KeyAt(sel: Selector, paths: seq<PathData>, i: nat): Key
    requires Usable(sel, paths, i)
  {
    KeyOf(sel, paths[i].path, paths[i].rtt.value)
  }

  /** Entry `i` is the first of the usable entries with the least key. */
  ghost predicate IsBest(sel: Selector, paths: seq<PathData>, i: nat) {
    && Usable(sel, paths, i)
    && (forall j: nat :: Usable(sel, paths, j) ==> !Less(KeyAt(sel, paths, j), KeyAt(sel, paths, i)))
    && (forall j: nat :: j < i && Usable(sel, paths, j) ==> Less(KeyAt(sel, paths, i), KeyAt(sel, paths, j)))
  }

  /** `k` is the least key among the usable entries for path `p`. */
  ghost predicate IsKeyInUse(sel: Selector, paths: seq<PathData>, p: Option<FourTuple>, k: Key) {
    && (exists i: nat :: Usable(sel, paths, i) && Some(paths[i].path) == p && KeyAt(sel, paths, i) == k)
    && (forall i: nat :: Usable(sel, paths, i) && Some(paths[i].path) == p ==> !Less(KeyAt(sel, paths, i), k))
  }

  /** What a selection may answer: the best path, when the current one is unusable or
      clearly worse; otherwise nothing, which leaves the current path in use. */
  ghost predicate Selects(sel: Selector, paths: seq<PathData>, current: Option<FourTuple>, chosen: Option<FourTuple>) {
    match chosen
    case Some(p) =>
      exists i: nat :: IsBest(sel, paths, i) && paths[i].path == p
        && forall k :: IsKeyInUse(sel, paths, current, k) ==> ShouldSwitch(k, KeyAt(sel, paths, i))
    case None =>
      forall i: nat :: IsBest(sel, paths, i) ==>
        exists k :: IsKeyInUse(sel, paths, current, k) && !ShouldSwitch(k, KeyAt(sel, paths, i))
  }

  /** `PathSelector::select`. */
  method Select(sel: Selector, paths: seq<PathData>, current: Option<FourTuple>) returns (chosen: Option<FourTuple>)
    ensures Selects(sel, paths, current, chosen)
  {
    var best: Option<nat> := None;
    var currentKey: Option<Key> := None;
    for n := 0 to |paths|
      invariant best.Some? ==> best.value < n && Usable(sel, paths, best.value)
      invariant best.None? ==> forall j: nat :: j < n ==> !Usable(sel, paths, j)
      invariant best.Some? ==> forall j: nat :: j < n && Usable(sel, paths, j) ==>
        !Less(KeyAt(sel, paths, j), KeyAt(sel, paths, best.value))
        && (j < best.value ==> Less(KeyAt(sel, paths, best.value), KeyAt(sel, paths, j)))
      invariant currentKey.Some? ==>
        exists i: nat :: i < n && Usable(sel, paths, i) && Some(paths[i].path) == current
          && KeyAt(sel, paths, i) == currentKey.value
      invariant forall i: nat :: i < n && Usable(sel, paths, i) && Some(paths[i].path) == current ==>
        currentKey.Some? && !Less(KeyAt(sel, paths, i), currentKey.value)
    {
      var psd := paths[n];
      if !IsLooped(sel, psd.path) && psd.rtt.Some? {
        var key := KeyOf(sel, psd.path, psd.rtt.value);
        assert Usable(sel, paths, n) && KeyAt(sel, paths, n) == key;
        if Some(psd.path) == current && (currentKey.None? || Less(key, currentKey.value)) {
          currentKey := Some(key);
        }
        if best.None? || Less(key, KeyAt(sel, paths, best.value)) {
          best := Some(n);
        }
      }
    }
    if best.None? {
      return None;
    }
    assert IsBest(sel, paths, best.value);
    assert currentKey.Some? ==> IsKeyInUse(sel, paths, current, currentKey.value);
    if currentKey.None? || ShouldSwitch(currentKey.value, KeyAt(sel, paths, best.value)) {
      chosen := Some(paths[best.value].path);
    } else {
      chosen := None;
    }
  }

  /** The path in use once a selection has been answered. */
  function InUse(current: Option<FourTuple>, chosen: Option<FourTuple>): Option<FourTuple> {
    if chosen.Some? then chosen else current
  }

  lemma BestUnique(sel: Selector, paths: seq<PathData>, i: nat, j: nat)
    requires IsBest(sel, paths, i) && IsBest(sel, paths, j)
    ensures i == j
  {
  }

  /** A chosen path is never one through our own tunnel. */
  lemma NeverSelectsALoop(sel: Selector, paths: seq<PathData>, current: Option<FourTuple>, chosen: Option<FourTuple>)
    requires Selects(sel, paths, current, chosen) && chosen.Some?
    ensures !IsLooped(sel, chosen.value)
  {
  }

  /** The best path's own key is the key in use once it is in use. */
  lemma BestKeyInUse(sel: Selector, paths: seq<PathData>, i: nat)
    requires IsBest(sel, paths, i)
    ensures IsKeyInUse(sel, paths, Some(paths[i].path), KeyAt(sel, paths, i))
  {
  }

  /** While the measurements stand still, a second selection has nothing to say. */
  lemma SelectionSettles(sel: Selector, paths: seq<PathData>, current: Option<FourTuple>,
                         chosen: Option<FourTuple>, again: Option<FourTuple>)
    requires Selects(sel, paths, current, chosen) && Selects(sel, paths, InUse(current, chosen), again)
    ensures again == None
  {
    if chosen.Some? {
      var i: nat :| IsBest(sel, paths, i) && paths[i].path == chosen.value;
      BestKeyInUse(sel, paths, i);
      forall j: nat | IsBest(sel, paths, j)
        ensures j == i
      {
        BestUnique(sel, paths, i, j);
      }
    }
  }

  /** However often the selector is asked, it switches at most once and never cycles. */
  lemma SwitchesAtMostOnce(sel: Selector, paths: seq<PathData>, used: seq<Option<FourTuple>>,
                           chosen: seq<Option<FourTuple>>, n: nat)
    requires |used| == |chosen| + 1 && 1 <= n < |used|
    requires forall i :: 0 <= i < |chosen| ==>
               Selects(sel, paths, used[i], chosen[i]) && used[i + 1] == InUse(used[i], chosen[i])
    ensures used[n] == used[1]
  {
    if n > 1 {
      SwitchesAtMostOnce(sel, paths, used, chosen, n - 1);
      SelectionSettles(sel, paths, used[n - 2], chosen[n - 2], chosen[n - 1]);
    }
  }

  /** Whenever some path is usable, the path in use after a selection is usable, in the
      lowest tier there is, and less than 5 ms behind the best of that tier. */
  lemma InUseIsNearBest(sel: Selector, paths: seq<PathData>,
                        current: Option<FourTuple>, chosen: Option<FourTuple>, j: nat)
    returns (i: nat)
    requires Selects(sel, paths, current, chosen) && Usable(sel, paths, j)
    ensures Usable(sel, paths, i) && Some(paths[i].path) == InUse(current, chosen)
    ensures KeyAt(sel, paths, i).tier <= KeyAt(sel, paths, j).tier
    ensures KeyAt(sel, paths, i).tier == KeyAt(sel, paths, j).tier ==>
              KeyAt(sel, paths, i).rtt < KeyAt(sel, paths, j).rtt + RTT_SWITCHING_MIN
  {
    if chosen.Some? {
      i :| IsBest(sel, paths, i) && paths[i].path == chosen.value;
    } else {
      var b := BestExists(sel, paths, j);
      var k :| IsKeyInUse(sel, paths, current, k) && !ShouldSwitch(k, KeyAt(sel, paths, b));
      i :| Usable(sel, paths, i) && Some(paths[i].path) == current && KeyAt(sel, paths, i) == k;
    }
  }

  /** In terms of paths: while a direct path is usable the path in use is direct, and at
      most 8 ms slower than it (5 ms of stickiness, 3 ms of favour to IPv6). */
  lemma DirectPathsFirst(sel: Selector, paths: seq<PathData>,
                         current: Option<FourTuple>, chosen: Option<FourTuple>, j: nat)
    returns (i: nat)
    requires Selects(sel, paths, current, chosen) && Usable(sel, paths, j) && !paths[j].path.RelayPath?
    ensures Usable(sel, paths, i) && Some(paths[i].path) == InUse(current, chosen)
    ensures !paths[i].path.RelayPath?
    ensures paths[i].rtt.value < paths[j].rtt.value + 8_000_000
  {
    i := InUseIsNearBest(sel, paths, current, chosen, j);
  }

  /** While one of the user's relays is usable, no other relay is in use. */
  lemma OwnRelaysFirst(sel: Selector, paths: seq<PathData>,
                       current: Option<FourTuple>, chosen: Option<FourTuple>, j: nat)
    requires Selects(sel, paths, current, chosen) && Usable(sel, paths, j)
    requires paths[j].path.RelayPath? && paths[j].path.url in sel.preferred
    ensures InUse(current, chosen).Some?
    ensures InUse(current, chosen).value.RelayPath? ==> InUse(current, chosen).value.url in sel.preferred
  {
    var i := InUseIsNearBest(sel, paths, current, chosen, j);
  }

  /** If anything is usable, something is best. */
  lemma {:induction false} BestExists(sel: Selector, paths: seq<PathData>, j: nat) returns (b: nat)
    requires Usable(sel, paths, j)
    ensures IsBest(sel, paths, b)
  {
    b := BestUpTo(sel, paths, j, |paths|);
  }

  lemma {:induction false} BestUpTo(sel: Selector, paths: seq<PathData>, j: nat, n: nat) returns (b: nat)
    requires Usable(sel, paths, j) && j < n <= |paths|
    ensures b < n && Usable(sel, paths, b)
    ensures forall i: nat :: i < n && Usable(sel, paths, i) ==>
      !Less(KeyAt(sel, paths, i), KeyAt(sel, paths, b)) && (i < b ==> Less(KeyAt(sel, paths, b), KeyAt(sel, paths, i)))
    decreases n
  {
    var m := n - 1;
    if i: nat :| i < m && Usable(sel, paths, i) {
      b := BestUpTo(sel, paths, i, m);
      if Usable(sel, paths, m) && Less(KeyAt(sel, paths, m), KeyAt(sel, paths, b)) {
        b := m;
      }
    } else {
      b := j;
    }
  }

  // ----- in terms of addresses and times -----

  function Bits(a: nat, b: nat, c: nat, d: nat): nat {
    0x100_0000 * a + 0x1_0000 * b + 0x100 * c + d
  }

  predicate AreOctets(a: nat, b: nat, c: nat, d: nat) {
    a < 0x100 && b < 0x100 && c < 0x100 && d < 0x100
  }

  lemma Prefix(a: nat, b: nat, c: nat, d: nat)
    requires AreOctets(a, b, c, d)
    ensures Bits(a, b, c, d) < 0x1_0000_0000
    ensures Bits(a, b, c, d) / 0x100 == 0x1_0000 * a + 0x100 * b + c
  {
  }

  /** A path is our own tunnel's exactly when its address, or the IPv4 address mapped into it,
      has the first three octets of the active network. */
  lemma LoopedExactlyInOurNetwork(sel: Selector, a: nat, b: nat, c: nat, d: nat, e: nat, f: nat, g: nat, h: nat,
                                  rest: nat)
    requires AreOctets(a, b, c, d) && AreOctets(e, f, g, h) && sel.subnet == Bits(e, f, g, h) != 0
    ensures Bits(a, b, c, d) < 0x1_0000_0000
    ensures IsLooped(sel, IpPath(V4(Bits(a, b, c, d)), rest)) <==> a == e && b == f && c == g
    ensures IsLooped(sel, IpPath(V6(0xffff * 0x1_0000_0000 + Bits(a, b, c, d)), rest)) <==> a == e && b == f && c == g
  {
    Prefix(a, b, c, d);
    Prefix(e, f, g, h);
    Mapped(Bits(a, b, c, d));
  }

  lemma Mapped(bits: u32)
    ensures MappedV4(V6(0xffff * 0x1_0000_0000 + bits)) == Some(bits)
  {
  }

  /** Nothing else is: relays, custom transports, true IPv6 addresses, and anything at all
      while no network is active. */
  lemma NothingElseIsLooped(sel: Selector, path: FourTuple)
    requires || !path.IpPath?
             || sel.subnet == 0
             || (path.remote.V6? && path.remote.v6 / 0x1_0000_0000 != 0xffff)
    ensures !IsLooped(sel, path)
  {
  }

  /** The best direct path: IPv6 has 3 ms to spare against IPv4. */
  lemma BestDirectPath(sel: Selector, paths: seq<PathData>, i: nat, j: nat)
    requires IsBest(sel, paths, i) && Usable(sel, paths, j)
    requires paths[i].path.IpPath? && paths[j].path.IpPath?
    ensures var mine, other := paths[i].rtt.value, paths[j].rtt.value;
            if paths[i].path.remote.V4? && paths[j].path.remote.V6? then mine + 3_000_000 <= other
            else if paths[i].path.remote.V6? && paths[j].path.remote.V4? then mine <= other + 3_000_000
            else mine <= other
  {
  }

  /** How good a path is by kind: direct, over one of the user's relays, over another one. */
  predicate KindBelow(sel: Selector, p: FourTuple, q: FourTuple) {
    || (!p.RelayPath? && q.RelayPath?)
    || (p.RelayPath? && p.url in sel.preferred && q.RelayPath? && q.url !in sel.preferred)
  }

  function Favour(p: FourTuple): int {
    if p.IpPath? && p.remote.V6? then 3_000_000 else 0
  }

  /** Entry `c` is usable, and no usable entry for the same path is faster. */
  predicate FastestOfItsPath(sel: Selector, paths: seq<PathData>, c: nat) {
    && Usable(sel, paths, c)
    && forall i :: 0 <= i < |paths| && Usable(sel, paths, i) && paths[i].path == paths[c].path ==>
         paths[c].rtt.value <= paths[i].rtt.value
  }

  /** The current path, wherever it is listed, is given up exactly for a path of a better
      kind, or for one of its own kind that is at least 5 ms faster, the favour to IPv6
      counted in. */
  lemma SwitchesExactlyForAGain(sel: Selector, paths: seq<PathData>, c: nat, b: nat, chosen: Option<FourTuple>)
    requires FastestOfItsPath(sel, paths, c) && IsBest(sel, paths, b)
    requires Selects(sel, paths, Some(paths[c].path), chosen)
    ensures var now, next := paths[c].path, paths[b].path;
            var slower := paths[c].rtt.value - Favour(now);
            var faster := paths[b].rtt.value - Favour(next);
            && (chosen.Some? ==> chosen == Some(next))
            && (chosen.Some? <==>
                  KindBelow(sel, next, now) || (!KindBelow(sel, now, next) && faster + 5_000_000 <= slower))
  {
    assert IsKeyInUse(sel, paths, Some(paths[c].path), KeyAt(sel, paths, c));
    forall k | IsKeyInUse(sel, paths, Some(paths[c].path), k)
      ensures k == KeyAt(sel, paths, c)
    {
    }
    if i: nat :| IsBest(sel, paths, i) && i != b {
      BestUnique(sel, paths, i, b);
    }
  }

  /** A current path that cannot be used any more is given up at once. */
  lemma LeavesAnUnusablePath(sel: Selector, paths: seq<PathData>, current: Option<FourTuple>, b: nat,
                             chosen: Option<FourTuple>)
    requires IsBest(sel, paths, b) && Selects(sel, paths, current, chosen)
    requires forall i: nat :: Usable(sel, paths, i) ==> Some(paths[i].path) != current
    ensures chosen == Some(paths[b].path)
  {
    if chosen.Some? {
      var i: nat :| IsBest(sel, paths, i) && paths[i].path == chosen.value;
      BestUnique(sel, paths, i, b);
    }
  }

  /** Of equally good paths the first listed is taken. */
  lemma FirstOfEquals(sel: Selector, paths: seq<PathData>, b: nat, j: nat)
    requires IsBest(sel, paths, b) && Usable(sel, paths, j) && j < b
    ensures var p, q := paths[b].path, paths[j].path;
            KindBelow(sel, p, q)
            || (!KindBelow(sel, q, p) && paths[b].rtt.value - Favour(p) < paths[j].rtt.value - Favour(q))
  {
  }
}
