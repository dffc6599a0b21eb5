/** Whole runs, as the nodes see them: cycles with any outcome, between changes of the cluster. */
module NodeRuns {
  import opened Addresses
  import opened Text
  import opened Collections
  import opened Cluster
  import opened Loading
  import opened Namespaces
  import opened Assignment
  import opened Placement
  import opened PlacementTheorems
  import opened HostSubnets
  import opened Reconcile
  import I = Instances

  /** The selected hostsubnets have each address once and on one node. */
  ghost predicate HostsUnique(selected: set<Node>, hosts: Hosts) {
    UniqueOn(hosts, selected) && ListsOnce(selected, hosts)
  }

  lemma UniqueHostsKeepOnce(env: Env, all: map<string, Namespace>, hosts: Hosts, inp: Input)
    requires InputFor(env, all, hosts, inp) && UniqueOn(hosts, env.Selected())
    ensures forall n, a :: a in Get(inp.carried, n) <==> OnSelected(hosts, env.Selected(), n, a) && n in inp.ready
    ensures KeptOnce(inp)
  {
    hide Requested, RequestedBy, Partition, SelectedNodes;
    forall n, a
      ensures a in Get(inp.carried, n) <==> OnSelected(hosts, env.Selected(), n, a) && n in inp.ready
    {
    }
  }

  // ---------- rejected updates ----------

  /** After writing the schedule the hostsubnets are apart unless a rejected update does harm. */
  lemma WriteKeepsHosts(env: Env, s: Snapshot, t: Snapshot, out: Assigned, r: Result<(), Error>)
    requires WriteOutcome(env, s, t, out, r) && OnceEach(out) && HostsUnique(env.Selected(), s.hostSubnets)
    ensures t.hostSubnets.Keys == s.hostSubnets.Keys
    ensures HostsUnique(env.Selected(), t.hostSubnets)
       <==> (r == Failure(HostSubnetUpdateFailed) ==> Harmless(s.hostSubnets, env.Selected(), out, env.acceptsHosts))
  {
    hide I.AfterCalls, I.IsExecution, I.BothGo, SelectedNodes, UniqueOn, Harmless;
    PartialUpdate(s.hostSubnets, env.Selected(), out, env.acceptsHosts);
    if UpdatesGo(env, s, out) {
      AcceptedIsHarmless(s.hostSubnets, env.Selected(), out, env.acceptsHosts);
    }
    forall n | n in env.Selected() && n in t.hostSubnets
      ensures NoDup(t.hostSubnets[n].egressIPs)
    {
      assert t.hostSubnets[n].egressIPs == s.hostSubnets[n].egressIPs || t.hostSubnets[n].egressIPs == Get(out, n);
    }
  }

  lemma AcceptedIsHarmless(hosts: Hosts, selected: set<Node>, out: Assigned, accepts: set<Node>)
    requires AllAccepted(hosts, selected, out, accepts)
    ensures Harmless(hosts, selected, out, accepts)
  {
    hide NeedsUpdate;
  }

  /** A wanted address is on a selected hostsubnet whose node is not ready, so that it has to move. */
  ghost predicate Stranded(inp: Input, hosts: Hosts, h: Node, a: Address) {
    OnSelected(hosts, inp.selected, h, a) && h !in inp.ready && Wanted(inp, a)
  }

  /** Where no address has to move, no rejected update does harm. */
  lemma NoneStrandedHarmless(env: Env, all: map<string, Namespace>, hosts: Hosts, inp: Input, out: Assigned, accepts: set<Node>)
    requires InputFor(env, all, hosts, inp) && WellFormed(inp) && IsPlacement(inp, out) && UniqueOn(hosts, inp.selected)
    requires forall h, a :: !Stranded(inp, hosts, h, a)
    ensures Harmless(hosts, inp.selected, out, accepts)
  {
    UniqueHostsKeepOnce(env, all, hosts, inp);
    OnceIff(inp, out);
    hide InputFor, NeedsUpdate, UniqueOn, KeptOnce;
    forall h, g, a | OnSelected(hosts, inp.selected, h, a) && Rejected(hosts, out, accepts, h) && g in inp.selected && g in hosts
                     && a in Get(out, g)
      ensures Rejected(hosts, out, accepts, g)
    {
      ExactlyTheWanted(inp, out, a);
      assert !Stranded(inp, hosts, h, a);
      assert Kept(inp, h, a);
      assert a in Get(out, h);
      assert h == g;
    }
  }

  /** When only the update of the node that gets the address goes through, the address is on two hostsubnets. */
  lemma OnlyOneAccepted(hosts: Hosts, selected: set<Node>, out: Assigned, h: Node, g: Node, a: Address)
    requires OnSelected(hosts, selected, h, a) && g in selected && g in hosts && a in Get(out, g) && h != g
    ensures !UniqueOn(Updated(hosts, selected, out, {g}), selected)
  {
    var after := Updated(hosts, selected, out, {g});
    assert after[h] == hosts[h];
    assert OnSelected(after, selected, h, a);
    assert a in ToSet(Get(out, g)) && (a in ToSet(hosts[g].egressIPs) <==> a in hosts[g].egressIPs);
    assert OnSelected(after, selected, g, a);
  }

  /** When an address has to move, there are rejections by which it is on two hostsubnets. */
  lemma StrandedHarm(env: Env, all: map<string, Namespace>, hosts: Hosts, inp: Input, out: Assigned, h: Node, a: Address)
    requires InputFor(env, all, hosts, inp) && WellFormed(inp) && IsPlacement(inp, out)
    requires inp.selected <= hosts.Keys && Stranded(inp, hosts, h, a)
    ensures exists accepts :: !UniqueOn(Updated(hosts, inp.selected, out, accepts), inp.selected)
  {
    hide IsPlacement, WellFormed, Wanted, Requested, RequestedBy, Partition, UniqueOn, Updated;
    ExactlyTheWanted(inp, out, a);
    var g :| a in Get(out, g);
    WhereItIs(inp, out, g, a);
    PlacedOnSelected(inp, out);
    OnlyOneAccepted(hosts, inp.selected, out, h, g, a);
  }

  /** The hostsubnets are safe from all rejections exactly when no wanted address is on one whose node is not ready. */
  lemma SafeFromRejections(env: Env, all: map<string, Namespace>, hosts: Hosts, inp: Input, out: Assigned)
    requires InputFor(env, all, hosts, inp) && WellFormed(inp) && IsPlacement(inp, out)
    requires UniqueOn(hosts, inp.selected) && inp.selected <= hosts.Keys
    ensures (forall accepts :: UniqueOn(Updated(hosts, inp.selected, out, accepts), inp.selected))
       <==> forall h, a :: !Stranded(inp, hosts, h, a)
  {
    UniqueHostsKeepOnce(env, all, hosts, inp);
    OnceIff(inp, out);
    hide InputFor, WellFormed, IsPlacement, KeptOnce, Stranded, UniqueOn, Updated, Harmless;
    if forall h, a :: !Stranded(inp, hosts, h, a) {
      forall accepts
        ensures UniqueOn(Updated(hosts, inp.selected, out, accepts), inp.selected)
      {
        NoneStrandedHarmless(env, all, hosts, inp, out, accepts);
        PartialUpdate(hosts, inp.selected, out, accepts);
      }
    } else {
      var h, a :| Stranded(inp, hosts, h, a);
      StrandedHarm(env, all, hosts, inp, out, h, a);
    }
  }

  // ---------- one cycle ----------

  /** The only cycle that does not keep the hostsubnets apart is one in which an update was rejected whose node still has
      an address that is on another one by now. */
  lemma CycleKeepsHosts(env: Env, s: Snapshot, t: Snapshot, o: Occupancy, us: seq<Namespace>, served: nat, inp: Input, out: Assigned,
                        r: Result<(), Error>)
    requires Outcome(env, s, t, o, us, served, inp, out, r) && HostsUnique(env.Selected(), s.hostSubnets)
    ensures t.hostSubnets.Keys == s.hostSubnets.Keys
    ensures HostsUnique(env.Selected(), t.hostSubnets)
       <==> (r == Failure(HostSubnetUpdateFailed) ==> Harmless(s.hostSubnets, env.Selected(), out, env.acceptsHosts))
  {
    if t.hostSubnets != s.hostSubnets || r == Failure(HostSubnetUpdateFailed) {
      Wrote(env, s, t, o, us, served, inp, out, r);
      UniqueHostsKeepOnce(env, t.namespaces, s.hostSubnets, inp);
      OnceIff(inp, out);
      WriteKeepsHosts(env, s.(namespaces := t.namespaces), t, out, r);
    }
  }

  /** When anything was written, a placement was. */
  lemma Wrote(env: Env, s: Snapshot, t: Snapshot, o: Occupancy, us: seq<Namespace>, served: nat, inp: Input, out: Assigned,
              r: Result<(), Error>)
    requires Outcome(env, s, t, o, us, served, inp, out, r)
    requires !Untouched(s, t) || r == Failure(HostSubnetUpdateFailed)
    ensures InputFor(env, t.namespaces, s.hostSubnets, inp) && WellFormed(inp) && IsPlacement(inp, out)
    ensures WriteOutcome(env, s.(namespaces := t.namespaces), t, out, r)
  {
    hide ServedFrom, WriteOutcome, InputFor, WellFormed, IsPlacement, Stuck;
    NotHosts(env, o, us, served, r);
    hide NotServed;
  }

  lemma NotHosts(env: Env, o: Occupancy, us: seq<Namespace>, served: nat, r: Result<(), Error>)
    ensures r.Failure? && NotServed(env, o, us, served, r.error) ==> !r.error.HostSubnetUpdateFailed?
  {
    hide Readable, FreeOf, ProblemAt;
    if r.Failure? && NotServed(env, o, us, served, r.error) && !Readable(o) && !r.error.NoHostSubnet? {
      var k :| 0 <= k < |o.annotated| && FirstProblem(Positions(o.annotated[k]), o.cidrs, r.error);
      hide Positions;
      ProblemsOfAnnotations(Positions(o.annotated[k]), o.cidrs, r.error);
    }
  }

  lemma ProblemsOfAnnotations(ps: seq<Option<Address>>, cidrs: seq<Cidr>, e: Error)
    requires FirstProblem(ps, cidrs, e)
    ensures e.IndexOutOfRange? || e.CannotParse? || e.OutsideBlock?
  {
  }

  /** Whatever fails, a cycle leaves no address on two instances, unless one that is kept is on two hostsubnets or a
      wanted one is on an instance that is left out. */
  lemma CycleKeepsInstances(env: Env, s: Snapshot, t: Snapshot, o: Occupancy, us: seq<Namespace>, served: nat, inp: Input, out: Assigned,
                            r: Result<(), Error>)
    requires Outcome(env, s, t, o, us, served, inp, out, r) && I.Unique(s.secondary)
    requires !Untouched(s, t) ==> KeptOnce(inp) && (env.Cloud() ==> LeftOutHoldNothing(inp, s.secondary))
    ensures I.Unique(t.secondary)
  {
    if t.secondary != s.secondary {
      Wrote(env, s, t, o, us, served, inp, out, r);
      hide Outcome, InputFor, WellFormed, IsPlacement, WriteOutcome, KeptOnce, LeftOutHoldNothing, I.Unique, I.Covered;
      OnceIff(inp, out);
      var s' := s.(namespaces := t.namespaces);
      CoveredIff(s', inp, out);
      InstancesSafe(env, s', t, out, r);
    }
  }

  // ---------- runs ----------

  /** A cycle with any outcome, for which the nodes may have changed in any way; a node that joins the cluster, with no
      addresses but its own; one that leaves it; anything else, like a change of namespaces. */
  datatype Event =
    | Reconciled(env: Env, o: Occupancy, us: seq<Namespace>, served: nat, inp: Input, out: Assigned, r: Result<(), Error>)
    | Joined(n: Node, hostIP: Option<Address>)
    | Left(n: Node)
    | Unrelated

  ghost predicate Happens(e: Event, s: Snapshot, t: Snapshot) {
    match e
    case Reconciled(env, o, us, served, inp, out, r) => Outcome(env, s, t, o, us, served, inp, out, r)
    case Joined(n, hostIP) =>
      n !in s.hostSubnets && n !in s.secondary
      && t == s.(hostSubnets := s.hostSubnets[n := HostSubnet(hostIP, [])], secondary := s.secondary[n := {}])
    case Left(n) => t == s.(hostSubnets := s.hostSubnets - {n}, secondary := s.secondary - {n})
    case Unrelated => Untouched(s, t)
  }

  ghost predicate IsRun(states: seq<Snapshot>, events: seq<Event>) {
    && |states| == |events| + 1
    && forall i :: 0 <= i < |events| ==> Happens(events[i], states[i], states[i + 1])
  }

  /** No address is on two of the hostsubnets of `chosen`, nor on two instances. */
  ghost predicate NodesApart(chosen: set<Node>, s: Snapshot) {
    HostsUnique(chosen, s.hostSubnets) && I.Unique(s.secondary)
  }

  /** What the cycles of the run find: of the nodes with a hostsubnet they select those of `chosen`, and no wanted address
      is on an instance that is left out. Rejected updates matter only when an address has to move, because its node is
      not ready: then none of them may do harm. */
  ghost predicate Regular(e: Event, chosen: set<Node>, s: Snapshot, t: Snapshot) {
    e.Reconciled? ==>
      && (forall n :: n in s.hostSubnets ==> (n in e.env.Selected() <==> n in chosen))
      && (e.env.Cloud() && !Untouched(s, t) ==> LeftOutHoldNothing(e.inp, s.secondary))
      && (e.r == Failure(HostSubnetUpdateFailed) && (exists h, a :: Stranded(e.inp, s.hostSubnets, h, a))
          ==> Harmless(s.hostSubnets, e.env.Selected(), e.out, e.env.acceptsHosts))
  }

  lemma SameSelection(hosts: Hosts, chosen: set<Node>, selected: set<Node>)
    requires forall n :: n in hosts ==> (n in selected <==> n in chosen)
    requires HostsUnique(chosen, hosts)
    ensures HostsUnique(selected, hosts)
  {
    assert forall n, a :: OnSelected(hosts, selected, n, a) ==> OnSelected(hosts, chosen, n, a);
  }

  lemma RejectionsHarmless(env: Env, s: Snapshot, t: Snapshot, o: Occupancy, us: seq<Namespace>, served: nat, inp: Input, out: Assigned)
    requires Outcome(env, s, t, o, us, served, inp, out, Failure(HostSubnetUpdateFailed)) && HostsUnique(env.Selected(), s.hostSubnets)
    requires forall h, a :: !Stranded(inp, s.hostSubnets, h, a)
    ensures Harmless(s.hostSubnets, env.Selected(), out, env.acceptsHosts)
  {
    Wrote(env, s, t, o, us, served, inp, out, Failure(HostSubnetUpdateFailed));
    assert inp.selected == env.Selected();
    hide InputFor, WellFormed, IsPlacement, WriteOutcome, Outcome, Stranded, Harmless;
    NoneStrandedHarmless(env, t.namespaces, s.hostSubnets, inp, out, env.acceptsHosts);
  }

  lemma EventKeepsNodesApart(e: Event, chosen: set<Node>, s: Snapshot, t: Snapshot)
    requires NodesApart(chosen, s) && Happens(e, s, t) && Regular(e, chosen, s, t)
    ensures NodesApart(chosen, t)
  {
    if e.Reconciled? {
      hide Outcome, HostsUnique, I.Unique, Harmless, SelectedNodes, Stranded, KeptOnce, LeftOutHoldNothing;
      SameSelection(s.hostSubnets, chosen, e.env.Selected());
      if e.r == Failure(HostSubnetUpdateFailed) && forall h, a :: !Stranded(e.inp, s.hostSubnets, h, a) {
        RejectionsHarmless(e.env, s, t, e.o, e.us, e.served, e.inp, e.out);
      }
      CycleKeepsHosts(e.env, s, t, e.o, e.us, e.served, e.inp, e.out, e.r);
      if !Untouched(s, t) {
        KeptOnceHere(e.env, s, t, e.o, e.us, e.served, e.inp, e.out, e.r);
      }
      CycleKeepsInstances(e.env, s, t, e.o, e.us, e.served, e.inp, e.out, e.r);
      SameSelection(t.hostSubnets, e.env.Selected(), chosen);
    } else {
      assert forall n, a :: OnSelected(t.hostSubnets, chosen, n, a) ==> OnSelected(s.hostSubnets, chosen, n, a);
    }
  }

  lemma KeptOnceHere(env: Env, s: Snapshot, t: Snapshot, o: Occupancy, us: seq<Namespace>, served: nat, inp: Input, out: Assigned,
                     r: Result<(), Error>)
    requires Outcome(env, s, t, o, us, served, inp, out, r) && !Untouched(s, t) && HostsUnique(env.Selected(), s.hostSubnets)
    ensures KeptOnce(inp)
  {
    Wrote(env, s, t, o, us, served, inp, out, r);
    hide Outcome, InputFor, WellFormed, IsPlacement, WriteOutcome, KeptOnce;
    UniqueHostsKeepOnce(env, t.namespaces, s.hostSubnets, inp);
  }

  /** Over every run, no address is ever on two of the chosen hostsubnets or on two instances. */
  lemma {:induction false} NeverOnTwoNodes(chosen: set<Node>, states: seq<Snapshot>, events: seq<Event>, k: nat)
    requires IsRun(states, events) && k < |states|
    requires forall i :: 0 <= i < |events| ==> Regular(events[i], chosen, states[i], states[i + 1])
    requires NodesApart(chosen, states[0])
    ensures NodesApart(chosen, states[k])
  {
    hide NodesApart, Happens, Regular;
    if k > 0 {
      NeverOnTwoNodes(chosen, states, events, k - 1);
      assert Happens(events[k - 1], states[k - 1], states[k - 1 + 1]) && Regular(events[k - 1], chosen, states[k - 1], states[k - 1 + 1]);
      EventKeepsNodesApart(events[k - 1], chosen, states[k - 1], states[k]);
    }
  }
}
