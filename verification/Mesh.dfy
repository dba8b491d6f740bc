/** One mesh connection per peer: what each end does with duplicates, and what two ends
    that both follow the rule arrive at. */
module Mesh {
  import opened Basics

  type Id = nat

  /** Which end of a QUIC connection we are: the one that dialed, or the one that answered. */
  datatype Side = Client | Server

  datatype Connection = Connection(stableId: nat, side: Side)

  /** The tie-break: whether a new connection to `peer` replaces the existing one. */
  predicate ResolveDuplicate(myId: Id, peer: Id, existingSide: Side, existingClosed: bool, newSide: Side) {
    if existingClosed then true
    else if existingSide == newSide then true
    else newSide.Client? == (myId < peer)
  }

  datatype Verdict = Fresh | ReplaceOld(superseded: Connection) | KeepExisting

  /** What is done with connection `c` to `peer` while `held` is in the table; `closed`
      are the stable ids of connections known to be closed. */
  function Reconcile(myId: Id, peer: Id, held: Option<Connection>, c: Connection, closed: set<nat>): Verdict {
    match held
    case None => Fresh
    case Some(existing) =>
      if existing.stableId == c.stableId then KeepExisting
      else if ResolveDuplicate(myId, peer, existing.side, existing.stableId in closed, c.side) then ReplaceOld(existing)
      else KeepExisting
  }

  /** The connection table of one node. */
  class MeshTable {
    const myId: Id
    var conns: map<Id, Connection>

    constructor (myId: Id)
      ensures this.myId == myId && conns == map[]
    {
      this.myId := myId;
      conns := map[];
    }

    /** The decision step of `register_mesh`; `loser` is the connection to close. In plain
        words: with nothing held, or with a closed connection held, the new one is adopted;
        of two open ones from the same end the newer is kept, and of two from opposite ends
        the one that the lower id dialed. */
    method Register(peer: Id, c: Connection, closed: set<nat>) returns (adopted: bool, loser: Option<Connection>)
      modifies this
      ensures var held := if peer in old(conns) then Some(old(conns)[peer]) else None;
              match Reconcile(myId, peer, held, c, closed)
              case Fresh => adopted && loser == None && conns == old(conns)[peer := c]
              case ReplaceOld(x) => adopted && loser == Some(x) && conns == old(conns)[peer := c]
              case KeepExisting => !adopted && loser == Some(c) && conns == old(conns)
      ensures peer !in old(conns) ==> adopted
      ensures peer in old(conns) && old(conns)[peer].stableId == c.stableId ==> !adopted
      ensures peer in old(conns) && old(conns)[peer].stableId != c.stableId ==>
                (adopted <==> || old(conns)[peer].stableId in closed
                              || old(conns)[peer].side == c.side
                              || c.side == if myId < peer then Client else Server)
    {
      if peer in conns {
        var existing := conns[peer];
        if existing.stableId == c.stableId {
          return false, Some(c);
        }
        if ResolveDuplicate(myId, peer, existing.side, existing.stableId in closed, c.side) {
          conns := conns[peer := c];
          return true, Some(existing);
        }
        return false, Some(c);
      }
      conns := conns[peer := c];
      return true, None;
    }

    /** The close watcher of connection `id`: it takes the entry out only if the entry is
        still that connection. */
    method OnClosed(peer: Id, id: nat) returns (evicted: bool)
      modifies this
      ensures evicted <==> peer in old(conns) && old(conns)[peer].stableId == id
      ensures conns == if evicted then old(conns) - {peer} else old(conns)
    {
      evicted := peer in conns && conns[peer].stableId == id;
      if evicted {
        conns := conns - {peer};
      }
    }
  }

  // ----- two ends -----

  /** The end with the lower NodeId, and the other one. */
  datatype End = Low | High

  function Other(e: End): End {
    if e.Low? then High else Low
  }

  /** Two nodes, the connections dialed between them, and the order in which each end
      comes to register them. */
  datatype Pairing = Pairing(lowId: Id, highId: Id, byLow: set<nat>, planLow: seq<nat>, planHigh: seq<nat>)

  function IdOf(p: Pairing, e: End): Id {
    if e.Low? then p.lowId else p.highId
  }

  function Plan(p: Pairing, e: End): seq<nat> {
    if e.Low? then p.planLow else p.planHigh
  }

  ghost predicate NoRepeats(plan: seq<nat>) {
    forall i, j :: 0 <= i < j < |plan| ==> plan[i] != plan[j]
  }

  ghost predicate Proper(p: Pairing) {
    p.lowId < p.highId && NoRepeats(p.planLow) && NoRepeats(p.planHigh)
  }

  /** Connection `c` as end `e` sees it. */
  function SeenFrom(p: Pairing, e: End, c: nat): Connection {
    Connection(c, if (c in p.byLow) == e.Low? then Client else Server)
  }

  /** One end: how many registrations it has run, the table entry for the other end, the
      connections it has decided to close but not yet closed, those it knows to be
      closed, and those with a close watcher. */
  datatype EndState = EndState(next: nat, held: Option<nat>, doomed: set<nat>, closed: set<nat>, watched: set<nat>)

  datatype State = State(low: EndState, high: EndState)

  const START := EndState(0, None, {}, {}, {})

  const INIT := State(START, START)

  function At(s: State, e: End): EndState {
    if e.Low? then s.low else s.high
  }

  function With(s: State, e: End, x: EndState): State {
    if e.Low? then s.(low := x) else s.(high := x)
  }

  /** What can happen at an end: the next registration is decided, a decided close is
      carried out, the other end's close becomes known, a close watcher fires. */
  datatype Action = Register | Close(c: nat) | Learn(c: nat) | Evict(c: nat)

  predicate Enabled(p: Pairing, s: State, e: End, a: Action) {
    var x := At(s, e);
    match a
    case Register => x.next < |Plan(p, e)|
    case Close(c) => c in x.doomed
    case Learn(c) => c in At(s, Other(e)).closed && c !in x.closed
    case Evict(c) => c in x.watched && c in x.closed
  }

  function HeldConnection(p: Pairing, e: End, x: EndState): Option<Connection> {
    if x.held.None? then None else Some(SeenFrom(p, e, x.held.value))
  }

  function Perform(p: Pairing, s: State, e: End, a: Action): EndState
    requires Enabled(p, s, e, a)
  {
    var x := At(s, e);
    match a
    case Register =>
      var c := Plan(p, e)[x.next];
      var verdict := Reconcile(IdOf(p, e), IdOf(p, Other(e)), HeldConnection(p, e, x), SeenFrom(p, e, c), x.closed);
      if verdict.KeepExisting? then x.(next := x.next + 1, doomed := x.doomed + {c})
      else x.(next := x.next + 1, held := Some(c), watched := x.watched + {c},
              doomed := if verdict.ReplaceOld? then x.doomed + {verdict.superseded.stableId} else x.doomed)
    case Close(c) => x.(doomed := x.doomed - {c}, closed := x.closed + {c})
    case Learn(c) => x.(closed := x.closed + {c})
    case Evict(c) => x.(watched := x.watched - {c}, held := if x.held == Some(c) then None else x.held)
  }

  ghost predicate Next(p: Pairing, s: State, s': State) {
    exists e, a :: Enabled(p, s, e, a) && s' == With(s, e, Perform(p, s, e, a))
  }

  ghost predicate IsRun(p: Pairing, run: seq<State>) {
    run != [] && run[0] == INIT && forall i :: 0 <= i < |run| - 1 ==> Next(p, run[i], run[i + 1])
  }

  // ----- the connection that wins -----

  /** `z`, registered at `k`, wins a plan: it is the last connection dialed by the lower
      end or, if the lower end dialed none of them, the last one. */
  ghost predicate Wins(p: Pairing, plan: seq<nat>, z: nat, k: nat) {
    && k < |plan| && plan[k] == z
    && if z in p.byLow then forall j :: k < j < |plan| ==> plan[j] !in p.byLow
       else k == |plan| - 1 && forall j :: 0 <= j < |plan| ==> plan[j] !in p.byLow
  }

  /** The same connection wins at both ends. */
  ghost predicate Agreed(p: Pairing, z: nat, kLow: nat, kHigh: nat) {
    Proper(p) && Wins(p, p.planLow, z, kLow) && Wins(p, p.planHigh, z, kHigh)
  }

  /** `z` is untouched at an end, and held there from its registration on. */
  ghost predicate Protects(p: Pairing, e: End, x: EndState, z: nat, k: nat) {
    && x.next <= |Plan(p, e)|
    && z !in x.doomed && z !in x.closed
    && (x.held.Some? ==> x.held.value in Plan(p, e)[..x.next])
    && (x.next > k ==> x.held == Some(z))
  }

  lemma RegisterProtects(p: Pairing, s: State, e: End, z: nat, k: nat)
    requires Proper(p) && Wins(p, Plan(p, e), z, k)
    requires Protects(p, e, At(s, e), z, k) && Enabled(p, s, e, Register)
    ensures Protects(p, e, Perform(p, s, e, Register), z, k)
  {
    var x := At(s, e);
    var plan := Plan(p, e);
    var c := plan[x.next];
    assert plan[..x.next + 1] == plan[..x.next] + [c];
    assert NoRepeats(plan);
    if x.held.Some? {
      var i :| 0 <= i < x.next && plan[..x.next][i] == x.held.value;
      assert plan[i] == x.held.value;
    }
  }

  lemma ActionProtects(p: Pairing, s: State, e: End, a: Action, z: nat, k: nat)
    requires Proper(p) && Wins(p, Plan(p, e), z, k)
    requires Protects(p, e, At(s, e), z, k) && Enabled(p, s, e, a) && z !in At(s, Other(e)).closed
    ensures Protects(p, e, Perform(p, s, e, a), z, k)
  {
    if a.Register? {
      RegisterProtects(p, s, e, z, k);
    }
  }

  /** Safety over every interleaving: the connection that wins at both ends is never closed
      at either, nor chosen for closing, and each end holds it from the moment it registers
      it. */
  lemma {:induction false} WinnerIsNeverClosed(p: Pairing, run: seq<State>, z: nat, kLow: nat, kHigh: nat)
    requires Agreed(p, z, kLow, kHigh) && IsRun(p, run)
    ensures var s := run[|run| - 1];
            Protects(p, Low, s.low, z, kLow) && Protects(p, High, s.high, z, kHigh)
  {
    if |run| > 1 {
      var n := |run| - 1;
      assert IsRun(p, run[..n]);
      WinnerIsNeverClosed(p, run[..n], z, kLow, kHigh);
      var s := run[n - 1];
      assert Next(p, run[n - 1], run[n]);
      var e, a :| Enabled(p, s, e, a) && run[n] == With(s, e, Perform(p, s, e, a));
      ActionProtects(p, s, e, a, z, if e.Low? then kLow else kHigh);
    }
  }

  // ----- a redial over a dead connection -----

  lemma {:induction false} HeldWasRegistered(p: Pairing, run: seq<State>)
    requires IsRun(p, run)
    ensures Registered(p, Low, run[|run| - 1].low) && Registered(p, High, run[|run| - 1].high)
  {
    if |run| > 1 {
      var n := |run| - 1;
      assert IsRun(p, run[..n]);
      HeldWasRegistered(p, run[..n]);
      var s := run[n - 1];
      assert Next(p, run[n - 1], run[n]);
      var e, a :| Enabled(p, s, e, a) && run[n] == With(s, e, Perform(p, s, e, a));
      StaysRegistered(p, s, e, a);
    }
  }

  ghost predicate Registered(p: Pairing, e: End, x: EndState) {
    && x.next <= |Plan(p, e)|
    && (x.held.Some? ==> exists i :: 0 <= i < x.next && Plan(p, e)[i] == x.held.value)
  }

  lemma StaysRegistered(p: Pairing, s: State, e: End, a: Action)
    requires Registered(p, e, At(s, e)) && Enabled(p, s, e, a)
    ensures Registered(p, e, Perform(p, s, e, a))
  {
    var x, x' := At(s, e), Perform(p, s, e, a);
    if x'.held.Some? && x'.held == x.held {
      var i :| 0 <= i < x.next && Plan(p, e)[i] == x.held.value;
    } else if a.Register? {
      assert Plan(p, e)[x.next] == x'.held.value;
    }
  }

  /** A connection registered while nothing is held, or while what is held is known to be
      closed, is held afterwards and not chosen for closing, whoever dialed either of them. */
  lemma RedialIsKept(p: Pairing, s: State, e: End)
    requires Proper(p) && Registered(p, e, At(s, e)) && Enabled(p, s, e, Register)
    requires At(s, e).held.Some? ==> At(s, e).held.value in At(s, e).closed
    ensures var x, x', c := At(s, e), Perform(p, s, e, Register), Plan(p, e)[At(s, e).next];
            x'.held == Some(c) && (c in x'.doomed ==> c in x.doomed)
  {
    var x := At(s, e);
    assert NoRepeats(Plan(p, e));
    if x.held.Some? {
      var i :| 0 <= i < x.next && Plan(p, e)[i] == x.held.value;
    }
  }

  /** Over every run: right after a registration an end holds the connection it registered or
      one that it did not know to be closed. */
  lemma NeverHoldsTheDead(p: Pairing, run: seq<State>, i: nat, e: End)
    requires Proper(p) && IsRun(p, run) && i + 1 < |run|
    requires Enabled(p, run[i], e, Register) && run[i + 1] == With(run[i], e, Perform(p, run[i], e, Register))
    ensures var x, x', c := At(run[i], e), At(run[i + 1], e), Plan(p, e)[At(run[i], e).next];
            && x'.held.Some?
            && (x'.held.value == c || x'.held.value !in x.closed)
            && (x.held.None? || x.held.value in x.closed ==> x'.held.value == c && (c in x'.doomed ==> c in x.doomed))
  {
    var front := run[..i + 1];
    forall j | 0 <= j < |front| - 1
      ensures Next(p, front[j], front[j + 1])
    {
      assert Next(p, run[j], run[j + 1]);
    }
    HeldWasRegistered(p, front);
    if At(run[i], e).held.Some? ==> At(run[i], e).held.value in At(run[i], e).closed {
      RedialIsKept(p, run[i], e);
    }
  }

  // ----- everything else is closed, and every run ends -----

  ghost function Conns(p: Pairing): set<nat> {
    (set c | c in p.planLow) + (set c | c in p.planHigh)
  }

  /** Nothing is lost track of: every registered connection is held, about to be closed,
      or closed; and only known connections are closed or watched. */
  ghost predicate Accounted(p: Pairing, e: End, x: EndState) {
    && x.next <= |Plan(p, e)|
    && (forall i :: 0 <= i < x.next ==>
          x.held == Some(Plan(p, e)[i]) || Plan(p, e)[i] in x.doomed || Plan(p, e)[i] in x.closed)
    && (x.held.Some? ==> x.held.value in Conns(p) && x.held.value in x.watched)
    && x.doomed <= Conns(p) && x.closed <= Conns(p)
  }

  lemma PlanInConns(p: Pairing, e: End, i: nat)
    requires i < |Plan(p, e)|
    ensures Plan(p, e)[i] in Conns(p)
  {
  }

  lemma ActionAccounts(p: Pairing, s: State, e: End, a: Action)
    requires Accounted(p, e, At(s, e)) && Accounted(p, Other(e), At(s, Other(e))) && Enabled(p, s, e, a)
    ensures Accounted(p, e, Perform(p, s, e, a))
  {
    if a.Register? {
      PlanInConns(p, e, At(s, e).next);
    }
  }

  lemma {:induction false} RunAccounts(p: Pairing, run: seq<State>)
    requires IsRun(p, run)
    ensures Accounted(p, Low, run[|run| - 1].low) && Accounted(p, High, run[|run| - 1].high)
  {
    if |run| > 1 {
      var n := |run| - 1;
      assert IsRun(p, run[..n]);
      RunAccounts(p, run[..n]);
      var s := run[n - 1];
      assert Next(p, run[n - 1], run[n]);
      var e, a :| Enabled(p, s, e, a) && run[n] == With(s, e, Perform(p, s, e, a));
      ActionAccounts(p, s, e, a);
    }
  }

  /** Work left at an end. */
  ghost function EndWork(p: Pairing, e: End, x: EndState): int {
    3 * (|Plan(p, e)| - x.next) + |x.doomed| + |Conns(p) - x.closed| + |x.watched|
  }

  ghost function Work(p: Pairing, s: State): int {
    EndWork(p, Low, s.low) + EndWork(p, High, s.high)
  }

  lemma OneMore(a: set<nat>, c: nat)
    ensures |a + {c}| <= |a| + 1
  {
    assert a + {c} == if c in a then a else a + {c};
  }

  /** A registration dooms at most one connection and starts at most one watcher. */
  lemma RegisterAddsLittle(p: Pairing, s: State, e: End)
    requires Enabled(p, s, e, Register)
    ensures var x, x' := At(s, e), Perform(p, s, e, Register);
            && x'.next == x.next + 1 && x'.closed == x.closed
            && |x'.doomed| <= |x.doomed| + 1 && |x'.watched| <= |x.watched| + 1
  {
    var x := At(s, e);
    var c := Plan(p, e)[x.next];
    OneMore(x.doomed, c);
    OneMore(x.watched, c);
    if x.held.Some? {
      OneMore(x.doomed, x.held.value);
    }
  }

  /** Every action uses up work, so no run goes on for ever. */
  lemma ActionUsesWork(p: Pairing, s: State, e: End, a: Action)
    requires Accounted(p, Other(e), At(s, Other(e))) && Enabled(p, s, e, a)
    ensures EndWork(p, e, Perform(p, s, e, a)) < EndWork(p, e, At(s, e))
  {
    var x := At(s, e);
    var x' := Perform(p, s, e, a);
    match a
    case Register =>
      RegisterAddsLittle(p, s, e);
    case Close(c) =>
      SubsetSize(Conns(p) - x'.closed, Conns(p) - x.closed);
    case Learn(c) =>
      assert Conns(p) - x'.closed == Conns(p) - x.closed - {c};
    case Evict(c) =>
  }

  lemma NextUsesWork(p: Pairing, s: State, s': State)
    requires Accounted(p, Low, s.low) && Accounted(p, High, s.high) && Next(p, s, s')
    ensures Work(p, s') < Work(p, s)
  {
    var e, a :| Enabled(p, s, e, a) && s' == With(s, e, Perform(p, s, e, a));
    ActionUsesWork(p, s, e, a);
  }

  lemma {:induction false} RunUsesWork(p: Pairing, run: seq<State>)
    requires IsRun(p, run)
    ensures |run| + Work(p, run[|run| - 1]) <= 1 + Work(p, INIT)
  {
    if |run| > 1 {
      var n := |run| - 1;
      assert IsRun(p, run[..n]);
      RunUsesWork(p, run[..n]);
      RunAccounts(p, run[..n]);
      assert Next(p, run[n - 1], run[n]);
      NextUsesWork(p, run[n - 1], run[n]);
    }
  }

  lemma RunsAreBounded(p: Pairing, run: seq<State>)
    requires IsRun(p, run)
    ensures |run| <= 1 + 3 * |p.planLow| + 3 * |p.planHigh| + 2 * |Conns(p)|
  {
    RunUsesWork(p, run);
    RunAccounts(p, run);
    assert Conns(p) - {} == Conns(p);
  }

  /** No action is enabled at either end. */
  ghost predicate Settled(p: Pairing, s: State) {
    forall e, a :: !Enabled(p, s, e, a)
  }

  /** Convergence: once all steps have run, both ends hold the winner, and every other
      connection that either end registered is closed at both ends. */
  lemma SettledOnTheWinner(p: Pairing, run: seq<State>, z: nat, kLow: nat, kHigh: nat, e: End, i: nat)
    requires Agreed(p, z, kLow, kHigh) && IsRun(p, run) && Settled(p, run[|run| - 1])
    requires i < |Plan(p, e)|
    ensures var s := run[|run| - 1];
            && s.low.held == Some(z) && s.high.held == Some(z)
            && (Plan(p, e)[i] != z ==> Plan(p, e)[i] in s.low.closed && Plan(p, e)[i] in s.high.closed)
  {
    var s := run[|run| - 1];
    WinnerIsNeverClosed(p, run, z, kLow, kHigh);
    RunAccounts(p, run);
    assert !Enabled(p, s, Low, Register) && !Enabled(p, s, High, Register);
    var c := Plan(p, e)[i];
    assert !Enabled(p, s, e, Close(c)) && !Enabled(p, s, Other(e), Learn(c));
  }

  // ----- exactly when the rule converges -----

  ghost predicate BothHoldTheSame(s: State) {
    s.low.held.Some? && s.low.held == s.high.held
  }

  /** Every run that has come to its end leaves both ends holding the same connection. */
  ghost predicate Converges(p: Pairing) {
    forall run :: IsRun(p, run) && Settled(p, run[|run| - 1]) ==> BothHoldTheSame(run[|run| - 1])
  }

  /** An end that has seen nothing but registrations holds the winner of what it
      registered. */
  ghost predicate OnlyRegistered(p: Pairing, e: End, x: EndState) {
    && x.next <= |Plan(p, e)| && x.closed == {}
    && (x.next == 0 ==> x.held == None)
    && (x.next > 0 ==> x.held.Some? && exists k: nat :: Wins(p, Plan(p, e)[..x.next], x.held.value, k))
  }

  lemma RegistersTheWinner(p: Pairing, s: State, e: End)
    requires Proper(p) && OnlyRegistered(p, e, At(s, e)) && Enabled(p, s, e, Register)
    ensures OnlyRegistered(p, e, Perform(p, s, e, Register))
  {
    var x := At(s, e);
    var plan := Plan(p, e);
    var before, after := plan[..x.next], plan[..x.next + 1];
    var c := plan[x.next];
    assert NoRepeats(plan);
    assert after == before + [c];
    if x.next == 0 {
      assert Wins(p, after, c, 0);
    } else {
      var k: nat :| Wins(p, before, x.held.value, k);
      assert before[k] == after[k];
      if x.held.value in p.byLow && c !in p.byLow {
        assert Wins(p, after, x.held.value, k);
      } else {
        assert Wins(p, after, c, x.next);
      }
    }
  }

  ghost predicate BothOnlyRegistered(p: Pairing, s: State) {
    OnlyRegistered(p, Low, s.low) && OnlyRegistered(p, High, s.high)
  }

  /** A run can register everything before anything is closed. */
  lemma {:induction false} RegisterAll(p: Pairing, run: seq<State>) returns (full: seq<State>)
    requires Proper(p) && IsRun(p, run) && BothOnlyRegistered(p, run[|run| - 1])
    ensures IsRun(p, full) && BothOnlyRegistered(p, full[|full| - 1])
    ensures full[|full| - 1].low.next == |p.planLow| && full[|full| - 1].high.next == |p.planHigh|
    decreases |p.planLow| - run[|run| - 1].low.next + |p.planHigh| - run[|run| - 1].high.next
  {
    var s := run[|run| - 1];
    if s.low.next < |p.planLow| {
      RegistersTheWinner(p, s, Low);
      var longer := Extend(p, run, Low, Register);
      full := RegisterAll(p, longer);
    } else if s.high.next < |p.planHigh| {
      RegistersTheWinner(p, s, High);
      var longer := Extend(p, run, High, Register);
      full := RegisterAll(p, longer);
    } else {
      full := run;
    }
  }

  /** With all registrations done, an end can only lose what it holds. */
  ghost predicate Fades(p: Pairing, e: End, x: EndState, x': EndState) {
    x'.next == |Plan(p, e)| && (x'.held == x.held || x'.held == None)
  }

  /** Every run can be carried on until nothing is left to do. */
  lemma {:induction false} CarryOn(p: Pairing, run: seq<State>, s0: State) returns (ended: seq<State>)
    requires IsRun(p, run)
    requires Fades(p, Low, s0.low, run[|run| - 1].low) && Fades(p, High, s0.high, run[|run| - 1].high)
    ensures IsRun(p, ended) && Settled(p, ended[|ended| - 1])
    ensures Fades(p, Low, s0.low, ended[|ended| - 1].low) && Fades(p, High, s0.high, ended[|ended| - 1].high)
    decreases Work(p, run[|run| - 1])
  {
    var s := run[|run| - 1];
    RunAccounts(p, run);
    if Settled(p, s) {
      ended := run;
    } else {
      var e, a :| Enabled(p, s, e, a);
      var longer := Extend(p, run, e, a);
      RunAccounts(p, longer);
      ActionUsesWork(p, s, e, a);
      ended := CarryOn(p, longer, s0);
    }
  }

  /** The tie-break makes both ends converge if and only if the same connection wins the
      order in which each of them registers: the last one dialed by the lower NodeId or,
      failing that, the last one. */
  lemma ConvergesExactlyWhenAgreed(p: Pairing)
    requires Proper(p)
    ensures Converges(p) <==> exists z, kLow: nat, kHigh: nat :: Agreed(p, z, kLow, kHigh)
  {
    if z, kLow: nat, kHigh: nat :| Agreed(p, z, kLow, kHigh) {
      forall run | IsRun(p, run) && Settled(p, run[|run| - 1])
        ensures BothHoldTheSame(run[|run| - 1])
      {
        SettledOnTheWinner(p, run, z, kLow, kHigh, Low, kLow);
      }
    }
    if Converges(p) {
      var full := RegisterAll(p, [INIT]);
      var s := full[|full| - 1];
      var ended := CarryOn(p, full, s);
      assert BothHoldTheSame(ended[|ended| - 1]);
      assert p.planLow[..s.low.next] == p.planLow && p.planHigh[..s.high.next] == p.planHigh;
      var kLow: nat :| Wins(p, p.planLow, s.low.held.value, kLow);
      var kHigh: nat :| Wins(p, p.planHigh, s.high.held.value, kHigh);
      assert Agreed(p, s.low.held.value, kLow, kHigh);
    }
  }

  // ----- where the rule does not converge -----

  /** Disagreement happens: when the two ends register two connections of the lower
      end in opposite orders, each closes the one the other keeps, and both end up
      with none. */
  lemma OppositeOrdersLoseBoth() returns (p: Pairing, run: seq<State>)
    ensures Proper(p) && p.byLow == {1, 2} && p.planLow == [1, 2] && p.planHigh == [2, 1]
    ensures IsRun(p, run) && run[|run| - 1].low.held == None && run[|run| - 1].high.held == None
  {
    p := Pairing(10, 20, {1, 2}, [1, 2], [2, 1]);
    var s := INIT;
    run := [s];
    run := Extend(p, run, Low, Register);
    run := Extend(p, run, Low, Register);
    run := Extend(p, run, High, Register);
    run := Extend(p, run, High, Register);
    run := Extend(p, run, Low, Close(1));
    run := Extend(p, run, High, Close(2));
    run := Extend(p, run, Low, Learn(2));
    run := Extend(p, run, High, Learn(1));
    run := Extend(p, run, Low, Evict(2));
    run := Extend(p, run, High, Evict(1));
  }

  lemma Extend(p: Pairing, run: seq<State>, e: End, a: Action) returns (run': seq<State>)
    requires IsRun(p, run) && Enabled(p, run[|run| - 1], e, a)
    ensures IsRun(p, run') && run'[|run'| - 1] == With(run[|run| - 1], e, Perform(p, run[|run| - 1], e, a))
  {
    run' := run + [With(run[|run| - 1], e, Perform(p, run[|run| - 1], e, a))];
    forall i | 0 <= i < |run'| - 1
      ensures Next(p, run'[i], run'[i + 1])
    {
      if i < |run| - 1 {
        assert Next(p, run[i], run[i + 1]);
      }
    }
  }
}
