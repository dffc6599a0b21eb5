/** The two-phase reconciliation of the secondary addresses of cloud instances (aws.go): one call per node, in any
    order, each of which may fail; the second phase starts only when every call of the first one has returned. */
module Instances {
  import opened Addresses
  import opened Collections
  import opened Cluster

  type Held = map<Node, set<Address>>

  /** What both phases compute from: the instances as they were read, and the addresses each node is to have.
      Nodes without an entry in `target` are not touched. */
  datatype Plan = Plan(snapshot: Held, target: Held) {
    ghost predicate Valid() {
      target.Keys <= snapshot.Keys
    }

    function Surplus(n: Node): set<Address>
      requires n in snapshot && n in target
    {
      snapshot[n] - target[n]
    }

    function Missing(n: Node): set<Address>
      requires n in snapshot && n in target
    {
      target[n] - snapshot[n]
    }
  }

  datatype Phase = Removing | Adding | Done(ok: bool)

  /** `pending` are the nodes whose call has not returned in this phase; `failed` if a call of this phase failed. */
  datatype State = State(phase: Phase, pending: set<Node>, failed: bool, held: Held)

  /** A call returns, having changed `applied` addresses: all of them when it succeeds, any of them when it does
      not. Or all results of the phase are in. A node with nothing to change may have a call, as on Azure, or none,
      as on AWS, which is as if it had one that succeeds. */
  datatype Step = Call(n: Node, applied: set<Address>, ok: bool) | Drained

  function Init(p: Plan): State {
    State(Removing, p.target.Keys, false, p.snapshot)
  }

  /** The addresses that the call of a pending node names. */
  function CallNames(p: Plan, s: State, n: Node): set<Address>
    requires n in p.snapshot && n in p.target
  {
    if s.phase == Removing then p.Surplus(n) else p.Missing(n)
  }

  ghost predicate Enabled(p: Plan, s: State, step: Step)
    requires p.Valid()
  {
    && !s.phase.Done?
    && match step
       case Drained => s.pending == {}
       case Call(n, applied, ok) =>
         && n in s.pending && n in p.target && n in s.held
         && applied <= CallNames(p, s, n)
         && (ok ==> applied == CallNames(p, s, n))
  }

  ghost function Next(p: Plan, s: State, step: Step): State
    requires p.Valid() && Enabled(p, s, step)
  {
    match step
    case Drained =>
      if s.phase == Adding || s.failed then s.(phase := Done(!s.failed))
      else State(Adding, p.target.Keys, false, s.held)
    case Call(n, applied, ok) =>
      var held := if s.phase == Removing then s.held[n] - applied else s.held[n] + applied;
      s.(pending := s.pending - {n}, failed := s.failed || !ok, held := s.held[n := held])
  }

  /** `t` is reached from `s` by these steps: one interleaving. */
  ghost predicate Reaches(p: Plan, s: State, steps: seq<Step>, t: State)
    requires p.Valid()
    decreases |steps|
  {
    if steps == [] then s == t
    else Enabled(p, s, steps[0]) && Reaches(p, Next(p, s, steps[0]), steps[1..], t)
  }

  // ---------- the invariant ----------

  /** Where a node stands within its phase. */
  ghost predicate NodeInv(p: Plan, s: State, n: Node)
    requires n in p.snapshot && n in p.target && n in s.held
  {
    var before, wanted, now := p.snapshot[n], p.target[n], s.held[n];
    match s.phase
    case Removing =>
      if n in s.pending then now == before
      else before * wanted <= now <= before && (!s.failed ==> now == before * wanted)
    case Adding =>
      if n in s.pending then now == before * wanted
      else before * wanted <= now <= wanted && (!s.failed ==> now == wanted)
    case Done(ok) => before * wanted <= now <= before + wanted && (ok ==> now == wanted)
  }

  /** When a failure ended the reconciliation, it was in one of the phases. */
  ghost predicate Within(p: Plan, s: State)
    requires p.Valid() && s.held.Keys == p.snapshot.Keys
  {
    || (forall n :: n in p.target ==> s.held[n] <= p.snapshot[n])
    || (forall n :: n in p.target ==> s.held[n] <= p.target[n])
  }

  ghost predicate Inv(p: Plan, s: State)
    requires p.Valid()
  {
    && s.held.Keys == p.snapshot.Keys
    && s.pending <= p.target.Keys
    && (forall n :: n in p.snapshot && n !in p.target ==> s.held[n] == p.snapshot[n])
    && (forall n :: n in p.target ==> NodeInv(p, s, n))
    && Within(p, s)
  }

  lemma InvInit(p: Plan)
    requires p.Valid()
    ensures Inv(p, Init(p))
  {
  }

  lemma InvStep(p: Plan, s: State, step: Step)
    requires p.Valid() && Inv(p, s) && Enabled(p, s, step)
    ensures Inv(p, Next(p, s, step))
  {
    var t := Next(p, s, step);
    if step.Call? {
      forall n | n in p.target
        ensures NodeInv(p, t, n)
      {
        assert NodeInv(p, s, n);
      }
      assert NodeInv(p, s, step.n);
      if s.phase == Removing {
        assert forall n :: n in p.target ==> NodeInv(p, t, n) && t.held[n] <= p.snapshot[n];
      } else {
        assert forall n :: n in p.target ==> NodeInv(p, t, n) && t.held[n] <= p.target[n];
      }
    } else {
      assert forall n :: n in p.target ==> NodeInv(p, s, n);
    }
  }

  lemma {:induction false} InvRun(p: Plan, s: State, steps: seq<Step>, t: State)
    requires p.Valid() && Inv(p, s) && Reaches(p, s, steps, t)
    ensures Inv(p, t)
    decreases |steps|
  {
    if steps != [] {
      InvStep(p, s, steps[0]);
      InvRun(p, Next(p, s, steps[0]), steps[1..], t);
    }
  }

  // ---------- safety ----------

  /** No address is on two instances. */
  ghost predicate Unique(h: Held) {
    forall n, m, a :: n in h && m in h && a in h[n] && a in h[m] ==> n == m
  }

  /** No instance that is left alone holds an address that another one is to have. In particular this is so when
      every selected instance has an entry in the target. */
  ghost predicate Covered(p: Plan) {
    forall n, m, a :: n in p.snapshot && n !in p.target && m in p.target && a in p.snapshot[n] ==> a !in p.target[m]
  }

  lemma InvUnique(p: Plan, s: State)
    requires p.Valid() && Inv(p, s)
    requires Unique(p.snapshot) && Unique(p.target) && Covered(p)
    ensures Unique(s.held)
  {
    forall n, m, a | n in s.held && m in s.held && a in s.held[n] && a in s.held[m]
      ensures n == m
    {
      if forall x :: x in p.target ==> s.held[x] <= p.snapshot[x] {
        assert a in p.snapshot[n] && a in p.snapshot[m];
      } else {
        assert forall x :: x in p.target ==> s.held[x] <= p.target[x];
        assert n in p.target ==> a in p.target[n];
        assert m in p.target ==> a in p.target[m];
      }
    }
  }

  /** Safety of every interleaving: whatever fails, no address is ever on two instances. */
  lemma NeverTwice(p: Plan, steps: seq<Step>, t: State)
    requires p.Valid() && Unique(p.snapshot) && Unique(p.target) && Covered(p)
    requires Reaches(p, Init(p), steps, t)
    ensures Unique(t.held)
  {
    InvInit(p);
    InvRun(p, Init(p), steps, t);
    InvUnique(p, t);
  }

  /** In the second phase a call names only addresses that no instance holds at that moment. */
  lemma AssignsFreeAddresses(p: Plan, steps: seq<Step>, t: State, n: Node, m: Node, a: Address)
    requires p.Valid() && Unique(p.snapshot) && Unique(p.target) && Covered(p)
    requires Reaches(p, Init(p), steps, t)
    requires t.phase == Adding && n in t.pending && n in p.target && a in p.Missing(n) && m in t.held
    ensures a !in t.held[m]
  {
    InvInit(p);
    InvRun(p, Init(p), steps, t);
    if m in p.target {
      assert NodeInv(p, t, m) && t.held[m] <= p.target[m];
    }
  }

  /** Although both phases compute from what was read before either, success leaves every node with its target and
      the others as they were. */
  lemma Converges(p: Plan, steps: seq<Step>, t: State)
    requires p.Valid() && Reaches(p, Init(p), steps, t)
    requires t.phase == Done(true)
    ensures t.held == map n | n in p.snapshot :: if n in p.target then p.target[n] else p.snapshot[n]
  {
    InvInit(p);
    InvRun(p, Init(p), steps, t);
    assert forall n :: n in p.target ==> NodeInv(p, t, n);
  }

  /** Whatever fails, at every moment an instance has all addresses that it had and is to have, none that it neither
      had nor is to have, and one without an entry in the target has what it had. */
  lemma NoDisruption(p: Plan, steps: seq<Step>, t: State, n: Node)
    requires p.Valid() && Reaches(p, Init(p), steps, t) && n in p.snapshot
    ensures n in t.held
    ensures n in p.target ==> p.snapshot[n] * p.target[n] <= t.held[n] <= p.snapshot[n] + p.target[n]
    ensures n !in p.target ==> t.held[n] == p.snapshot[n]
  {
    InvInit(p);
    InvRun(p, Init(p), steps, t);
    if n in p.target {
      assert NodeInv(p, t, n);
    }
  }

  // ---------- the condition is necessary ----------

  /** In no interleaving from `s`, with any call failing, an address is ever on two instances. */
  ghost predicate SafeFrom(p: Plan, s: State)
    requires p.Valid()
  {
    forall steps, t :: Reaches(p, s, steps, t) ==> Unique(t.held)
  }

  lemma NotSafe(p: Plan, s: State, steps: seq<Step>, t: State)
    requires p.Valid() && Reaches(p, s, steps, t) && !Unique(t.held)
    ensures !SafeFrom(p, s)
  {
    hide Reaches;
  }

  lemma {:induction false} ReachesMore(p: Plan, s: State, steps: seq<Step>, t: State, step: Step)
    requires p.Valid() && Reaches(p, s, steps, t) && Enabled(p, t, step)
    ensures Reaches(p, s, steps + [step], Next(p, t, step))
    decreases |steps|
  {
    var more := steps + [step];
    if steps == [] {
      assert more[1..] == [];
    } else {
      assert more[0] == steps[0] && more[1..] == steps[1..] + [step];
      ReachesMore(p, Next(p, s, steps[0]), steps[1..], t, step);
    }
  }

  /** From any state without a failure, a run in which every call succeeds finishes. */
  lemma {:induction false} CanSucceed(p: Plan, start: State, steps: seq<Step>, s: State) returns (all: seq<Step>, t: State)
    requires p.Valid() && Reaches(p, start, steps, s) && Inv(p, s)
    requires !s.failed && (s.phase.Done? ==> s.phase.ok)
    ensures Reaches(p, start, all, t) && t.phase == Done(true)
    decreases match s.phase case Removing => 2 case Adding => 1 case Done(_) => 0, s.pending
  {
    if s.phase.Done? {
      return steps, s;
    }
    var step: Step;
    if s.pending == {} {
      step := Drained;
    } else {
      var n :| n in s.pending;
      step := Call(n, CallNames(p, s, n), true);
    }
    InvStep(p, s, step);
    ReachesMore(p, start, steps, s, step);
    all, t := CanSucceed(p, start, steps + [step], Next(p, s, step));
  }

  /** The coverage condition is exactly what safety needs. */
  lemma SafeIffCovered(p: Plan)
    requires p.Valid() && Unique(p.snapshot) && Unique(p.target)
    ensures Covered(p) <==> SafeFrom(p, Init(p))
  {
    if Covered(p) {
      forall steps, t | Reaches(p, Init(p), steps, t)
        ensures Unique(t.held)
      {
        NeverTwice(p, steps, t);
      }
    } else {
      var n, m, a :| n in p.snapshot && n !in p.target && m in p.target && a in p.snapshot[n] && a in p.target[m];
      InvInit(p);
      var steps, t := CanSucceed(p, Init(p), [], Init(p));
      Converges(p, steps, t);
      assert n != m && a in t.held[n] && a in t.held[m];
      NotSafe(p, Init(p), steps, t);
    }
  }

  // ---------- the wait between the phases is necessary ----------

  /** As if the second phase started without waiting for the first. */
  function Early(p: Plan): State {
    State(Adding, p.target.Keys, false, p.snapshot)
  }

  /** No node is to have an address that another one has to give up. */
  ghost predicate NothingMoves(p: Plan)
    requires p.Valid()
  {
    forall n, m, a :: n in p.target && m in p.target && n != m && a in p.snapshot[n] ==> a !in p.target[m]
  }

  ghost predicate Bounded(p: Plan, s: State)
    requires p.Valid()
  {
    && s.held.Keys == p.snapshot.Keys
    && (forall n :: n in p.snapshot ==> s.held[n] <= p.snapshot[n] + (if n in p.target then p.target[n] else {}))
  }

  lemma {:induction false} BoundedRun(p: Plan, s: State, steps: seq<Step>, t: State)
    requires p.Valid() && Bounded(p, s) && Reaches(p, s, steps, t)
    ensures Bounded(p, t)
    decreases |steps|
  {
    if steps != [] {
      BoundedRun(p, Next(p, s, steps[0]), steps[1..], t);
    }
  }

  /** Without the wait, safety would hold exactly for the plans in which no address moves. */
  lemma WaitIsNeeded(p: Plan)
    requires p.Valid() && Unique(p.snapshot) && Unique(p.target) && Covered(p)
    ensures NothingMoves(p) <==> SafeFrom(p, Early(p))
  {
    if NothingMoves(p) {
      forall steps, t | Reaches(p, Early(p), steps, t)
        ensures Unique(t.held)
      {
        BoundedRun(p, Early(p), steps, t);
      }
    } else {
      var n, m, a :| n in p.target && m in p.target && n != m && a in p.snapshot[n] && a in p.target[m];
      var step := Call(m, p.Missing(m), true);
      var t := Next(p, Early(p), step);
      assert [step][1..] == [];
      assert Reaches(p, t, [], t);
      assert Reaches(p, Early(p), [step], t);
      assert a in t.held[n] && a in t.held[m];
      NotSafe(p, Early(p), [step], t);
    }
  }

  // ---------- the program ----------

  /** How a call ends: it is carried out, or it fails after some part of it was. */
  datatype Outcome = Carried | Broken(part: set<Address>)

  /** What becomes of the calls of both phases: those without an entry are carried out. `always` if nodes with
      nothing to change have a call too. */
  datatype Calls = Calls(removals: map<Node, Outcome>, additions: map<Node, Outcome>, always: bool) {
    function Of(removing: bool, n: Node): Outcome {
      var outcomes := if removing then removals else additions;
      if n in outcomes then outcomes[n] else Carried
    }
  }

  function Applied(o: Outcome, addresses: set<Address>): set<Address> {
    if o.Carried? then addresses else o.part * addresses
  }

  function ToChange(p: Plan, removing: bool, n: Node): set<Address>
    requires n in p.snapshot && n in p.target
  {
    if removing then p.Surplus(n) else p.Missing(n)
  }

  /** The call of node `n`, if it is made, is carried out. */
  ghost predicate Goes(p: Plan, calls: Calls, removing: bool, n: Node)
    requires n in p.snapshot && n in p.target
  {
    calls.always || ToChange(p, removing, n) != {} ==> calls.Of(removing, n).Carried?
  }

  ghost predicate AllGo(p: Plan, calls: Calls, removing: bool)
    requires p.Valid()
  {
    forall n :: n in p.target ==> Goes(p, calls, removing, n)
  }

  /** The addresses of a node after its call. */
  ghost function AfterCall(p: Plan, calls: Calls, removing: bool, n: Node, addresses: set<Address>): set<Address>
    requires n in p.snapshot && n in p.target
  {
    var applied := Applied(calls.Of(removing, n), ToChange(p, removing, n));
    if removing then addresses - applied else addresses + applied
  }

  /** The instances after a phase. */
  ghost function AfterPhase(p: Plan, calls: Calls, removing: bool, h: Held): Held
    requires p.Valid()
  {
    map n | n in h :: if n in p.target then AfterCall(p, calls, removing, n, h[n]) else h[n]
  }

  /** The instances at the end. */
  ghost function AfterCalls(p: Plan, calls: Calls): Held
    requires p.Valid()
  {
    var removed := AfterPhase(p, calls, true, p.snapshot);
    if AllGo(p, calls, true) then AfterPhase(p, calls, false, removed) else removed
  }

  ghost predicate BothGo(p: Plan, calls: Calls)
    requires p.Valid()
  {
    AllGo(p, calls, true) && AllGo(p, calls, false)
  }

  /** An execution of both phases, from the instances as they were read to its end. */
  ghost predicate IsExecution(p: Plan, h: Held, ok: bool)
    requires p.Valid()
  {
    exists steps, t :: Reaches(p, Init(p), steps, t) && t.phase == Done(ok) && t.held == h
  }

  /** Where a phase stands: the calls of all nodes but `pending` have returned. */
  ghost predicate PartOfPhase(p: Plan, calls: Calls, removing: bool, before: Held, pending: set<Node>, h: Held, ok: bool)
    requires p.Valid()
  {
    && h.Keys == before.Keys
    && (forall n :: n in h ==> h[n] == if n in pending then before[n] else AfterPhase(p, calls, removing, before)[n])
    && (ok <==> forall n :: n in p.target && n !in pending ==> Goes(p, calls, removing, n))
  }

  lemma OneMoreCall(p: Plan, calls: Calls, removing: bool, before: Held, pending: set<Node>, h: Held, ok: bool, n: Node)
    requires p.Valid() && before.Keys == p.snapshot.Keys
    requires PartOfPhase(p, calls, removing, before, pending, h, ok) && n in pending && n in p.target
    ensures PartOfPhase(p, calls, removing, before, pending - {n}, h[n := AfterCall(p, calls, removing, n, h[n])], ok && Goes(p, calls, removing, n))
  {
    hide AfterCall, Goes;
  }

  /** The step of the state machine that a call is. */
  lemma CallIsStep(p: Plan, calls: Calls, s: State, removing: bool, n: Node) returns (step: Step)
    requires p.Valid() && n in s.pending && n in p.target && n in s.held
    requires s.phase == if removing then Removing else Adding
    ensures Enabled(p, s, step)
    ensures Next(p, s, step) == State(s.phase, s.pending - {n}, s.failed || !Goes(p, calls, removing, n),
                                      s.held[n := AfterCall(p, calls, removing, n, s.held[n])])
  {
    var outcome := calls.Of(removing, n);
    step := Call(n, Applied(outcome, ToChange(p, removing, n)), Goes(p, calls, removing, n));
  }

  lemma ReachesItself(p: Plan, s: State)
    requires p.Valid()
    ensures Reaches(p, s, [], s)
  {
  }

  class CloudInstances {
    /** Read once, when the reconciliation starts. */
    const snapshot: Held
    var held: Held

    constructor (held: Held)
      ensures this.held == held == snapshot
    {
      this.held, snapshot := held, held;
    }

    /** The call of one node, if it has one. */
    method CallNode(target: Held, removing: bool, calls: Calls, n: Node) returns (ok: bool)
      requires target.Keys <= snapshot.Keys && n in target && n in held
      modifies this`held
      ensures held == old(held)[n := AfterCall(Plan(snapshot, target), calls, removing, n, old(held)[n])]
      ensures ok <==> Goes(Plan(snapshot, target), calls, removing, n)
    {
      var addresses := if removing then snapshot[n] - target[n] else target[n] - snapshot[n];
      if addresses == {} && !calls.always {
        assert AfterCall(Plan(snapshot, target), calls, removing, n, held[n]) == held[n];
        assert held == held[n := held[n]];
        return true;
      }
      var outcome := calls.Of(removing, n);
      var applied := Applied(outcome, addresses);
      held := held[n := if removing then held[n] - applied else held[n] + applied];
      return outcome.Carried?;
    }

    /** One phase: the calls return in any order; all results are drained. */
    method RunPhase(target: Held, removing: bool, calls: Calls, ghost start: State, ghost before: seq<Step>, ghost s0: State)
      returns (ok: bool, ghost steps: seq<Step>, ghost s: State)
      requires target.Keys <= snapshot.Keys
      requires held == s0.held && s0.held.Keys == snapshot.Keys
      requires s0 == State(if removing then Removing else Adding, target.Keys, false, held)
      requires Reaches(Plan(snapshot, target), start, before, s0)
      modifies this`held
      ensures held == s.held == AfterPhase(Plan(snapshot, target), calls, removing, old(held))
      ensures ok <==> AllGo(Plan(snapshot, target), calls, removing)
      ensures s == State(s0.phase, {}, !ok, held)
      ensures Reaches(Plan(snapshot, target), start, steps, s)
    {
      ghost var p, first := Plan(snapshot, target), held;
      hide Reaches, Enabled, Next, Goes, AfterCall;
      ok, steps, s := true, before, s0;
      var pending := target.Keys;
      while pending != {}
        invariant pending <= target.Keys && held.Keys == snapshot.Keys
        invariant PartOfPhase(p, calls, removing, first, pending, held, ok)
        invariant s == State(s0.phase, pending, !ok, held)
        invariant Reaches(p, start, steps, s)
      {
        hide PartOfPhase;
        var n :| n in pending;
        OneMoreCall(p, calls, removing, first, pending, held, ok, n);
        ghost var step := CallIsStep(p, calls, s, removing, n);
        ReachesMore(p, start, steps, s, step);
        var done := CallNode(target, removing, calls, n);
        pending := pending - {n};
        ok := ok && done;
        steps, s := steps + [step], Next(p, s, step);
      }
    }

    /** Every execution is a run of the state machine, from the instances as they were read to its end; what it
        leaves depends on the calls alone, and it succeeds exactly when all calls that are made are carried out. */
    method ReconcileInstanceSecondaryIPs(target: Held, calls: Calls) returns (ok: bool)
      requires held == snapshot && target.Keys <= snapshot.Keys
      modifies this`held
      ensures IsExecution(Plan(snapshot, target), held, ok)
      ensures held == AfterCalls(Plan(snapshot, target), calls)
      ensures ok <==> BothGo(Plan(snapshot, target), calls)
      ensures ok <==> NoCallBroken(Plan(snapshot, target), calls)
    {
      BothGoIff(Plan(snapshot, target), calls);
      hide AllGo, Reaches, NoCallBroken;
      ghost var p := Plan(snapshot, target);
      ghost var steps, s, t;
      ReachesItself(p, Init(p));
      ok, steps, s := RunPhase(target, true, calls, Init(p), [], Init(p));
      ReachesMore(p, Init(p), steps, s, Drained);
      steps, t := steps + [Drained], Next(p, s, Drained);
      if !ok {
        return;
      }
      ok, steps, s := RunPhase(target, false, calls, Init(p), steps, t);
      ReachesMore(p, Init(p), steps, s, Drained);
      steps, t := steps + [Drained], Next(p, s, Drained);
    }
  }

  lemma CarriedOut(p: Plan, calls: Calls, removing: bool, n: Node, addresses: set<Address>)
    requires n in p.snapshot && n in p.target && Goes(p, calls, removing, n)
    ensures AfterCall(p, calls, removing, n, addresses) == if removing then addresses - p.Surplus(n) else addresses + p.Missing(n)
  {
    var change := ToChange(p, removing, n);
    assert Applied(calls.Of(removing, n), change) == change;
  }

  /** When all calls are carried out, each node of the target has its target. */
  lemma AllCarriedOut(p: Plan, calls: Calls)
    requires p.Valid() && BothGo(p, calls)
    ensures AfterCalls(p, calls) == map n | n in p.snapshot :: if n in p.target then p.target[n] else p.snapshot[n]
  {
    hide Goes, AfterCall;
    var removed := AfterPhase(p, calls, true, p.snapshot);
    var added := AfterPhase(p, calls, false, removed);
    forall n | n in p.target
      ensures added[n] == p.target[n]
    {
      CarriedOut(p, calls, true, n, p.snapshot[n]);
      CarriedOut(p, calls, false, n, removed[n]);
      assert p.snapshot[n] - p.Surplus(n) + p.Missing(n) == p.target[n];
    }
  }

  /** The entries of the nodes of the target that stand for calls that are made all say that they are carried out. */
  ghost predicate NoCallBroken(p: Plan, calls: Calls)
    requires p.Valid()
  {
    && (forall n :: n in p.target && (calls.always || p.snapshot[n] - p.target[n] != {}) && n in calls.removals
                    ==> calls.removals[n] == Carried)
    && (forall n :: n in p.target && (calls.always || p.target[n] - p.snapshot[n] != {}) && n in calls.additions
                    ==> calls.additions[n] == Carried)
  }

  lemma BothGoIff(p: Plan, calls: Calls)
    requires p.Valid()
    ensures BothGo(p, calls) <==> NoCallBroken(p, calls)
  {
    forall n | n in p.target
      ensures Goes(p, calls, true, n) <==>
              (calls.always || p.snapshot[n] - p.target[n] != {}) && n in calls.removals ==> calls.removals[n] == Carried
      ensures Goes(p, calls, false, n) <==>
              (calls.always || p.target[n] - p.snapshot[n] != {}) && n in calls.additions ==> calls.additions[n] == Carried
    {
    }
  }

  /** What a call for which there is no entry, or one that says how it ends, takes away or adds. */
  ghost predicate EndsWith(outcomes: map<Node, Outcome>, n: Node, change: set<Address>, done: set<Address>) {
    && (n !in outcomes || outcomes[n] == Carried ==> done == change)
    && (n in outcomes && outcomes[n].Broken? ==> done == outcomes[n].part * change)
  }

  /** The addresses of a node at the end: all surplus ones are gone but those that a broken call left; missing ones are
      there, but those that a broken call did not bring, when no removal of any node was broken. */
  lemma EndOf(p: Plan, calls: Calls, n: Node) returns (gone: set<Address>, come: set<Address>)
    requires p.Valid() && n in p.target
    ensures EndsWith(calls.removals, n, p.snapshot[n] - p.target[n], gone)
    ensures EndsWith(calls.additions, n, p.target[n] - p.snapshot[n], come)
    ensures n in AfterCalls(p, calls)
    ensures AfterCalls(p, calls)[n] == p.snapshot[n] - gone + (if AllGo(p, calls, true) then come else {})
  {
    gone, come := Applied(calls.Of(true, n), p.Surplus(n)), Applied(calls.Of(false, n), p.Missing(n));
    var removed := AfterPhase(p, calls, true, p.snapshot);
    assert removed[n] == p.snapshot[n] - gone;
    if AllGo(p, calls, true) {
      assert AfterPhase(p, calls, false, removed)[n] == removed[n] + come;
    }
  }

  /** When every node has its target already, nothing changes, whatever becomes of the calls; and only where nodes
      with nothing to change have calls too can one fail. */
  lemma NothingToChange(p: Plan, calls: Calls)
    requires p.Valid() && forall n :: n in p.target ==> p.snapshot[n] == p.target[n]
    ensures AfterCalls(p, calls) == p.snapshot
    ensures !calls.always ==> BothGo(p, calls)
  {
    forall n | n in p.target
      ensures ToChange(p, true, n) == ToChange(p, false, n) == {}
      ensures forall removing :: AfterCall(p, calls, removing, n, p.snapshot[n]) == p.snapshot[n]
    {
    }
    assert AfterPhase(p, calls, true, p.snapshot) == p.snapshot;
    assert AfterPhase(p, calls, false, p.snapshot) == p.snapshot;
  }
}
