/** One reconcile cycle on the path where the controller places the addresses itself: a cloud platform, or more than
    one block (egressipam_controller.go, processReconcileContext). */
module Reconcile {
  import opened Addresses
  import opened Text
  import opened Collections
  import opened Cluster
  import opened Loading
  import opened Namespaces
  import opened Assignment
  import opened Placement
  import opened PlacementTheorems
  import opened NodeAssignment
  import opened HostSubnets
  import I = Instances

  /** On AWS a node with nothing to change has no call, on Azure it has one. */
  datatype Platform = BareMetal | AWS | Azure

  /** What a cycle finds besides the World: the resource, the nodes, the reports of the infrastructure, and which
      updates and calls go through. */
  datatype Env = Env(
    ipam: string,
    assignments: seq<CidrAssignment>,
    nodes: map<Node, NodeObject>,
    infra: map<Cidr, seq<Address>>,
    platform: Platform,
    acceptsNamespaces: set<string>,
    netNamespacesUpdated: bool,
    acceptsHosts: set<Node>,
    removals: map<Node, I.Outcome>,
    additions: map<Node, I.Outcome>)
  {
    predicate Cloud() {
      !platform.BareMetal?
    }

    function Calls(): I.Calls {
      I.Calls(removals, additions, platform.Azure?)
    }

    ghost function Selected(): set<Node> {
      SelectedNodes(nodes)
    }
  }

  /** The World at one moment. */
  datatype Snapshot = Snapshot(namespaces: map<string, Namespace>, hostSubnets: Hosts, secondary: I.Held)

  // ---------- what the program relies on ----------

  ghost predicate KeyedByName(all: map<string, Namespace>) {
    forall n :: n in all ==> all[n].name == n
  }

  /** The resource passed validation, its blocks do not overlap, and infrastructure addresses are in their blocks. */
  ghost predicate Sane(env: Env) {
    && DisjointBlocks(Blocks(env.assignments))
    && (forall ca, text :: ca in env.assignments && text in ca.reservedIPs ==> GoodReserved(ca, text))
    && (forall c, a :: a in Get(env.infra, c) ==> c.Contains(a))
  }

  /** A selected hostsubnet lists an address once. Two of them may have the same one. */
  ghost predicate ListsOnce(selected: set<Node>, hosts: Hosts) {
    forall n :: n in selected && n in hosts ==> NoDup(hosts[n].egressIPs)
  }

  /** On a cloud platform every selected node has an instance. */
  ghost predicate Instantiated(env: Env, s: Snapshot) {
    env.Cloud() ==> env.Selected() <= s.secondary.Keys
  }

  // ---------- what is read ----------

  /** What takes addresses is what the cluster, the resource and the infrastructure say at the start of the cycle,
      and the lists are those of the namespaces that refer to the resource. */
  ghost predicate FreshRead(env: Env, s: Snapshot, o: Occupancy, us: seq<Namespace>) {
    && o.cidrs == Blocks(env.assignments) && o.nodes == env.nodes.Keys && o.infra == env.infra
    && o.hostIPs == HostIPsOf(s.hostSubnets)
    && (forall ca :: ca in env.assignments ==> Get(o.reserved, ca.cidr) == Reserved(ca.reservedIPs))
    && Listed(env.ipam, s.namespaces, o.annotated, us)
    && InBlocks(o)
  }

  /** `annotated` are the namespaces that refer to the resource and have addresses, `us` those that do not. */
  ghost predicate Listed(ipam: string, all: map<string, Namespace>, annotated: seq<Namespace>, us: seq<Namespace>) {
    && (forall ns :: ns in us <==> ns.name in all && all[ns.name] == ns && Refers(ns, ipam) && ns.egressips.None?)
    && (forall ns :: ns in annotated <==> ns.name in all && all[ns.name] == ns && Refers(ns, ipam) && ns.egressips.Some?)
    && (forall i, j :: 0 <= i < j < |us| ==> us[i].name != us[j].name)
  }

  ghost predicate HasAddresses(ns: Namespace, ipam: string) {
    Refers(ns, ipam) && ns.egressips.Some?
  }

  /** A namespace that refers to the resource has the address in its annotation. */
  ghost predicate RequestedBy(ipam: string, all: map<string, Namespace>, a: Address) {
    exists n :: n in all && HasAddresses(all[n], ipam) && Some(a) in Positions(all[n])
  }

  /** The scheduler's input, up to the order of its lists. */
  ghost predicate InputFor(env: Env, all: map<string, Namespace>, hosts: Hosts, inp: Input) {
    && inp.cidrs == Blocks(env.assignments)
    && inp.ready == ReadyNodes(env.nodes) && inp.selected == env.Selected()
    && inp.carried == (map n | n in hosts && n in inp.selected && n in inp.ready :: hosts[n].egressIPs)
    && Partition(env.assignments, env.nodes, inp.nodesByCidr)
    && (forall a :: Requested(inp, a) <==> RequestedBy(env.ipam, all, a))
  }

  lemma InputWellFormed(env: Env, all: map<string, Namespace>, hosts: Hosts, inp: Input)
    requires Sane(env) && ListsOnce(env.Selected(), hosts) && InputFor(env, all, hosts, inp)
    ensures WellFormed(inp)
  {
    OneBlockPerNode(env.assignments, env.nodes, inp.nodesByCidr);
    hide BlockFor, BlockOf, Blocks, Requested, RequestedBy, SelectedNodes;
    assert forall n :: n in inp.carried ==> inp.carried[n] == hosts[n].egressIPs;
  }

  // ---------- the namespaces after serving ----------

  lemma {:induction false} ServedLookup(o: Occupancy, us: seq<Namespace>, n: nat, all: map<string, Namespace>, name: string)
    requires n <= |us| && Room(o, n)
    requires forall i, j :: 0 <= i < j < |us| ==> us[i].name != us[j].name
    ensures (forall j :: 0 <= j < n ==> us[j].name != name) ==>
              (name in Served(o, us, n, all) <==> name in all) && (name in all ==> Served(o, us, n, all)[name] == all[name])
    ensures forall j :: 0 <= j < n && us[j].name == name ==>
              Room(o, j + 1) && name in Served(o, us, n, all) && Served(o, us, n, all)[name] == Granted(us[j], Share(o, j))
  {
    hide Granted, FreeOf;
    if n > 0 {
      ServedLookup(o, us, n - 1, all, name);
    }
  }

  lemma {:induction false} GrantsAt(o: Occupancy, us: seq<Namespace>, n: nat, j: nat)
    requires j < n <= |us| && Room(o, n)
    ensures |Grants(o, us, n)| == n && Room(o, j + 1)
    ensures Grants(o, us, n)[j] == Granted(us[j], Share(o, j))
  {
    GrantsLength(o, us, n);
    hide FreeOf, Granted, Share;
    GrantsLength(o, us, n - 1);
    assert Grants(o, us, n) == Grants(o, us, n - 1) + [Granted(us[n - 1], Share(o, n - 1))];
    hide Grants;
    if j < n - 1 {
      GrantsAt(o, us, n - 1, j);
    }
  }

  lemma {:induction false} GrantsLength(o: Occupancy, us: seq<Namespace>, n: nat)
    requires n <= |us| && Room(o, n)
    ensures |Grants(o, us, n)| == n
  {
    hide FreeOf, Granted, Share;
    if n > 0 {
      GrantsLength(o, us, n - 1);
    }
  }

  ghost predicate IsAssigned(all: map<string, Namespace>, ipam: string, ns: Namespace) {
    ns.name in all && all[ns.name] == ns && HasAddresses(ns, ipam)
  }

  lemma KeptIsAssigned(ipam: string, o: Occupancy, us: seq<Namespace>, all: map<string, Namespace>, ns: Namespace)
    requires Listed(ipam, all, o.annotated, us) && Room(o, |us|) && ns in o.annotated
    ensures IsAssigned(Served(o, us, |us|, all), ipam, ns)
  {
    hide FreeOf, InBlocks, Room, Served;
    forall j | 0 <= j < |us|
      ensures us[j].name != ns.name
    {
      assert us[j] in us;
    }
    ServedLookup(o, us, |us|, all, ns.name);
  }

  lemma GrantedIsAssigned(ipam: string, o: Occupancy, us: seq<Namespace>, all: map<string, Namespace>, j: nat)
    requires Listed(ipam, all, o.annotated, us) && Room(o, |us|) && j < |us|
    ensures |Grants(o, us, |us|)| == |us| && IsAssigned(Served(o, us, |us|, all), ipam, Grants(o, us, |us|)[j])
  {
    hide FreeOf, InBlocks, Room, Served, Share, FormatAnnotation, Grants;
    assert us[j] in us;
    GrantsAt(o, us, |us|, j);
    ServedLookup(o, us, |us|, all, us[j].name);
  }

  lemma AssignedIsFinal(ipam: string, o: Occupancy, us: seq<Namespace>, all: map<string, Namespace>, n: string)
    requires KeyedByName(all) && Listed(ipam, all, o.annotated, us) && Room(o, |us|)
    requires n in Served(o, us, |us|, all) && HasAddresses(Served(o, us, |us|, all)[n], ipam)
    ensures Served(o, us, |us|, all)[n] in o.annotated + Grants(o, us, |us|)
  {
    hide FreeOf, InBlocks, Share, FormatAnnotation, Served;
    ServedLookup(o, us, |us|, all, n);
    if j :| 0 <= j < |us| && us[j].name == n {
      GrantsAt(o, us, |us|, j);
      assert Grants(o, us, |us|)[j] in Grants(o, us, |us|);
    } else {
      assert all[n] in o.annotated;
    }
  }

  /** The listed namespaces have the addresses of those that refer to the resource, and each has an annotation. */
  ghost predicate SameRequests(final: seq<Namespace>, ipam: string, all: map<string, Namespace>) {
    && (forall a: Address :: (exists k :: 0 <= k < |final| && Some(a) in Positions(final[k])) <==> RequestedBy(ipam, all, a))
    && (forall k :: 0 <= k < |final| ==> final[k].egressips.Some?)
  }

  lemma FinallyOneOf(ipam: string, o: Occupancy, us: seq<Namespace>, all: map<string, Namespace>, k: nat)
    requires Listed(ipam, all, o.annotated, us) && Room(o, |us|) && k < |o.annotated + Grants(o, us, |us|)|
    ensures IsAssigned(Served(o, us, |us|, all), ipam, (o.annotated + Grants(o, us, |us|))[k])
  {
    hide Grants, Served, Listed, FreeOf;
    if k < |o.annotated| {
      KeptIsAssigned(ipam, o, us, all, o.annotated[k]);
    } else {
      GrantsLength(o, us, |us|);
      GrantedIsAssigned(ipam, o, us, all, k - |o.annotated|);
    }
  }

  /** After all were served, the namespaces with addresses are those that had them and the ones just served. */
  lemma FinallyAssigned(ipam: string, o: Occupancy, us: seq<Namespace>, all: map<string, Namespace>)
    requires KeyedByName(all) && Listed(ipam, all, o.annotated, us) && Room(o, |us|)
    ensures SameRequests(o.annotated + Grants(o, us, |us|), ipam, Served(o, us, |us|, all))
  {
    hide FreeOf, Share, Served, Grants, Positions, Listed;
    var final, after := o.annotated + Grants(o, us, |us|), Served(o, us, |us|, all);
    forall k | 0 <= k < |final|
      ensures IsAssigned(after, ipam, final[k])
    {
      FinallyOneOf(ipam, o, us, all, k);
    }
    forall a: Address
      ensures (exists k :: 0 <= k < |final| && Some(a) in Positions(final[k])) <==> RequestedBy(ipam, after, a)
    {
      if k :| 0 <= k < |final| && Some(a) in Positions(final[k]) {
        assert final[k].name in after && Some(a) in Positions(after[final[k].name]);
      }
      if RequestedBy(ipam, after, a) {
        var n :| n in after && HasAddresses(after[n], ipam) && Some(a) in Positions(after[n]);
        AssignedIsFinal(ipam, o, us, all, n);
        var k :| 0 <= k < |final| && final[k] == after[n];
        assert Some(a) in Positions(final[k]);
      }
    }
  }

  // ---------- a cycle ----------

  function TargetOf(out: Assigned): I.Held {
    map n | n in out :: ToSet(out[n])
  }

  /** The addresses of the instances when every node of the schedule has exactly its own. */
  ghost function OnInstances(before: I.Held, out: Assigned): I.Held {
    map n | n in before :: if n in out then ToSet(out[n]) else before[n]
  }

  /** A successful cycle from `s` to `t`: the schedule `out` is a placement of the addresses of the namespaces, and
      it is on the hostsubnets and on the instances. */
  ghost predicate Cycle(env: Env, s: Snapshot, t: Snapshot, inp: Input, out: Assigned) {
    && InputFor(env, t.namespaces, s.hostSubnets, inp) && WellFormed(inp) && IsPlacement(inp, out)
    && t.hostSubnets == Updated(s.hostSubnets, env.Selected(), out, s.hostSubnets.Keys)
    && t.secondary == if env.Cloud() then OnInstances(s.secondary, out) else s.secondary
  }

  /** The namespaces were served from the list of free addresses as it was at the start: the first `served` of `us`. */
  ghost predicate ServedFrom(env: Env, s: Snapshot, t: Snapshot, o: Occupancy, us: seq<Namespace>, served: nat) {
    && FreshRead(env, s, o, us)
    && served <= |us| && Room(o, served)
    && (served > 0 ==> Readable(o))
    && (forall j :: 0 <= j < served ==> us[j].name in env.acceptsNamespaces)
    && t.namespaces == Served(o, us, served, s.namespaces)
  }

  ghost function Now(world: World): Snapshot
    reads world
  {
    Snapshot(world.namespaces, world.hostSubnets, world.secondary)
  }

  // ---------- writing the schedule ----------

  lemma PlacedOnSelected(inp: Input, out: Assigned)
    requires WellFormed(inp) && IsPlacement(inp, out) && inp.carried.Keys <= inp.selected
    ensures out.Keys <= inp.selected
  {
    forall n | n in out
      ensures n in inp.selected
    {
      if KeptSet(inp, n) != {} {
        var a :| a in KeptSet(inp, n);
        assert n in inp.carried;
      } else if c :| n in ReadyIn(inp, c) {
        assert n in Get(inp.nodesByCidr, c);
      }
    }
  }

  /** The instances as they were read, and what the schedule makes of them. */
  function PlanFor(s: Snapshot, out: Assigned): I.Plan {
    I.Plan(s.secondary, TargetOf(out))
  }

  /** Every node of the schedule has an instance. */
  ghost predicate Reachable(env: Env, s: Snapshot, out: Assigned) {
    env.Cloud() ==> PlanFor(s, out).Valid()
  }

  ghost predicate CallsGo(env: Env, s: Snapshot, out: Assigned)
    requires Reachable(env, s, out)
  {
    env.Cloud() ==> I.BothGo(PlanFor(s, out), env.Calls())
  }

  ghost predicate UpdatesGo(env: Env, s: Snapshot, out: Assigned) {
    AllAccepted(s.hostSubnets, env.Selected(), out, env.acceptsHosts)
  }

  /** The instances come first, and what they end with depends on their calls alone; the hostsubnets are touched only
      when every call went through, and then every accepted update is made. */
  ghost predicate WriteOutcome(env: Env, s: Snapshot, t: Snapshot, out: Assigned, r: Result<(), Error>) {
    && Reachable(env, s, out)
    && t.secondary == (if env.Cloud() then I.AfterCalls(PlanFor(s, out), env.Calls()) else s.secondary)
    && (env.Cloud() ==> I.IsExecution(PlanFor(s, out), t.secondary, CallsGo(env, s, out)))
    && t.hostSubnets == (if CallsGo(env, s, out) then Updated(s.hostSubnets, env.Selected(), out, env.acceptsHosts) else s.hostSubnets)
    && r == if !CallsGo(env, s, out) then Failure(CloudCallFailed)
            else if !UpdatesGo(env, s, out) then Failure(HostSubnetUpdateFailed)
            else Success(())
  }

  /** On bare metal there are no instances to reconcile. */
  method ReconcileInstances(world: World, env: Env, out: Assigned) returns (ok: bool)
    requires Reachable(env, Now(world), out)
    modifies world`secondary
    ensures var s := old(Now(world));
            && (ok <==> CallsGo(env, s, out))
            && world.secondary == (if env.Cloud() then I.AfterCalls(PlanFor(s, out), env.Calls()) else s.secondary)
            && (env.Cloud() ==> I.IsExecution(PlanFor(s, out), world.secondary, ok))
  {
    if !env.Cloud() {
      return true;
    }
    var cloud := new I.CloudInstances(world.secondary);
    ok := cloud.ReconcileInstanceSecondaryIPs(TargetOf(out), env.Calls());
    world.secondary := cloud.held;
  }

  /** Brings instances and hostsubnets to the schedule. */
  method WriteSchedule(world: World, env: Env, out: Assigned, selected: set<Node>) returns (r: Result<(), Error>)
    requires selected == env.Selected()
    requires Reachable(env, Now(world), out)
    modifies world`secondary, world`hostSubnets
    ensures WriteOutcome(env, old(Now(world)), Now(world), out, r)
  {
    var ok := ReconcileInstances(world, env, out);
    if !ok {
      return Failure(CloudCallFailed);
    }
    ok := ReconcileHSAssignedIPs(world, selected, out, env.acceptsHosts);
    return if ok then Success(()) else Failure(HostSubnetUpdateFailed);
  }

  /** When nothing fails, the schedule is on the instances and on the hostsubnets. */
  lemma WrittenInFull(env: Env, s: Snapshot, t: Snapshot, out: Assigned)
    requires WriteOutcome(env, s, t, out, Success(()))
    ensures t.hostSubnets == Updated(s.hostSubnets, env.Selected(), out, s.hostSubnets.Keys)
    ensures t.secondary == if env.Cloud() then OnInstances(s.secondary, out) else s.secondary
  {
    hide NeedsUpdate, SelectedNodes, I.IsExecution, I.BothGo, I.AfterCalls;
    if env.Cloud() {
      I.AllCarriedOut(PlanFor(s, out), env.Calls());
    }
  }

  /** The schedule has no entry for the node. */
  ghost predicate LeftOut(inp: Input, n: Node) {
    (forall c :: n !in ReadyIn(inp, c)) && KeptSet(inp, n) == {} && n !in inp.selected - inp.ready
  }

  /** No instance that will be left out of the schedule holds a wanted address. */
  ghost predicate LeftOutHoldNothing(inp: Input, held: I.Held) {
    forall n, a :: n in held && LeftOut(inp, n) && a in held[n] ==> !Wanted(inp, a)
  }

  lemma InScheduleIff(inp: Input, out: Assigned, n: Node)
    requires NodesOf(inp, out)
    ensures n in out <==> !LeftOut(inp, n)
  {
    hide KeptSet, ReadyIn;
  }

  lemma WantedIff(inp: Input, out: Assigned, a: Address)
    requires WellFormed(inp) && IsPlacement(inp, out)
    ensures Wanted(inp, a) <==> exists m :: m in out && a in TargetOf(out)[m]
  {
    ExactlyTheWanted(inp, out, a);
    hide Wanted, WellFormed, IsPlacement;
    assert forall m :: m in out ==> TargetOf(out)[m] == ToSet(out[m]);
    assert forall m :: a in Get(out, m) <==> m in out && a in out[m];
  }

  /** That is the condition for the safety of the two phases, in terms of what the cycle starts from. */
  lemma CoveredIff(s: Snapshot, inp: Input, out: Assigned)
    requires WellFormed(inp) && IsPlacement(inp, out)
    ensures I.Covered(PlanFor(s, out)) <==> LeftOutHoldNothing(inp, s.secondary)
  {
    var p := PlanFor(s, out);
    assert p.target.Keys == out.Keys;
    forall n
      ensures n in p.target <==> !LeftOut(inp, n)
    {
      InScheduleIff(inp, out, n);
    }
    forall a
      ensures Wanted(inp, a) <==> exists m :: m in p.target && a in p.target[m]
    {
      WantedIff(inp, out, a);
    }
    hide LeftOut, Wanted, WellFormed, IsPlacement, PlanFor, TargetOf;
    if LeftOutHoldNothing(inp, s.secondary) {
      forall n, m, a | n in p.snapshot && n !in p.target && m in p.target && a in p.snapshot[n]
        ensures a !in p.target[m]
      {
        assert !Wanted(inp, a);
      }
    }
  }

  /** Every selected node belongs to a block, and only selected nodes have instances. */
  ghost predicate AllLabelled(env: Env, s: Snapshot) {
    && (forall n :: n in env.Selected() ==> BlockOf(env.assignments, env.nodes[n]).Some?)
    && s.secondary.Keys <= env.Selected()
  }

  /** Then no instance is left out. */
  lemma SelectedAreServed(env: Env, s: Snapshot, inp: Input)
    requires AllLabelled(env, s) && InputFor(env, s.namespaces, s.hostSubnets, inp)
    ensures forall n :: n in s.secondary ==> !LeftOut(inp, n)
    ensures LeftOutHoldNothing(inp, s.secondary)
  {
    hide BlockOf, Requested, RequestedBy, KeptSet;
    forall n | n in s.secondary
      ensures !LeftOut(inp, n)
    {
      if n in inp.ready {
        var c := BlockOf(env.assignments, env.nodes[n]).value;
        assert n in Get(inp.nodesByCidr, c);
        assert n in ReadyIn(inp, c);
      }
    }
  }

  /** The schedule of one address on the only node of a block, with another ready node that belongs to no block. */
  function TwoNodes(c: Cidr, a: Address, m: Node, n: Node): Input {
    Input([c], map[], [[Some(a)]], map[c := [m]], {m, n}, {m, n})
  }

  /** When the address is on the instance of the other node, that is left out, and the address gets onto both. */
  lemma LeftOutUnsafe(c: Cidr, a: Address, m: Node, n: Node)
    requires c.Contains(a) && m != n
    ensures var out, p := map[m := [a]], I.Plan(map[m := {}, n := {a}], map[m := {a}]);
            && WellFormed(TwoNodes(c, a, m, n)) && IsPlacement(TwoNodes(c, a, m, n), out)
            && I.Unique(p.snapshot) && p.target == TargetOf(out) && !I.SafeFrom(p, I.Init(p))
  {
    var inp, out: Assigned := TwoNodes(c, a, m, n), map[m := [a]];
    OneNodeForAll(c, a, m, n);
    var p := I.Plan(map[m := {}, n := {a}], map[m := {a}]);
    assert ToSet([a]) == {a};
    assert TargetOf(out) == p.target;
    hide I.SafeFrom;
    assert !I.Covered(p) by { assert n in p.snapshot && n !in p.target && m in p.target && a in p.snapshot[n] && a in p.target[m]; }
    I.SafeIffCovered(p);
  }

  lemma OneNodeForAll(c: Cidr, a: Address, m: Node, n: Node)
    requires c.Contains(a) && m != n
    ensures WellFormed(TwoNodes(c, a, m, n)) && IsPlacement(TwoNodes(c, a, m, n), map[m := [a]])
  {
    var inp, out: Assigned := TwoNodes(c, a, m, n), map[m := [a]];
    assert Requested(inp, a) by { assert Some(a) in inp.rows[0]; }
    assert ReadyIn(inp, c) == {m} && forall d :: d != c ==> ReadyIn(inp, d) == {};
    assert forall d, b :: ToPlace(inp, d, b) <==> d == c && b == a;
    assert forall x, b :: b in Get(out, x) <==> x == m && b == a;
    assert m in ReadyIn(inp, c) && a in Get(out, m);
    assert forall x :: KeptSet(inp, x) == {};
  }

  /** Whatever fails, no address is on two instances when none was before, the schedule has each on one node, and no
      instance outside the schedule holds one of its addresses. */
  lemma InstancesSafe(env: Env, s: Snapshot, t: Snapshot, out: Assigned, r: Result<(), Error>)
    requires WriteOutcome(env, s, t, out, r) && OnceEach(out)
    requires I.Unique(s.secondary) && (env.Cloud() ==> I.Covered(PlanFor(s, out)))
    ensures I.Unique(t.secondary)
  {
    hide I.BothGo, I.AfterCalls, I.Reaches;
    if env.Cloud() {
      var p := PlanFor(s, out);
      assert forall n, a :: n in out && a in p.target[n] ==> a in Get(out, n);
      var steps, st :| I.Reaches(p, I.Init(p), steps, st) && st.phase == I.Done(CallsGo(env, s, out)) && st.held == t.secondary;
      I.NeverTwice(p, steps, st);
    }
  }

  /** Whatever fails, an instance keeps the addresses that it had and is to have. */
  lemma InstancesKeep(env: Env, s: Snapshot, t: Snapshot, out: Assigned, r: Result<(), Error>, n: Node)
    requires WriteOutcome(env, s, t, out, r) && n in s.secondary
    ensures n in t.secondary
    ensures n in out ==> s.secondary[n] * ToSet(out[n]) <= t.secondary[n] <= s.secondary[n] + ToSet(out[n])
    ensures n !in out ==> t.secondary[n] == s.secondary[n]
  {
    hide I.BothGo, I.AfterCalls, I.Reaches;
    if env.Cloud() {
      var p := PlanFor(s, out);
      var steps, st :| I.Reaches(p, I.Init(p), steps, st) && st.phase == I.Done(CallsGo(env, s, out)) && st.held == t.secondary;
      I.NoDisruption(p, steps, st, n);
    }
  }

  // ---------- the parts of a cycle ----------

  lemma BlocksListedOnce(cidrs: seq<Cidr>)
    requires DisjointBlocks(cidrs)
    ensures NoDup(cidrs)
  {
    forall i, j | 0 <= i < j < |cidrs|
      ensures cidrs[i] != cidrs[j]
    {
      assert Disjoint(cidrs[i], cidrs[j]);
      cidrs[i].Bounds();
      assert cidrs[i].Contains(cidrs[i].base);
    }
  }

  /** Validation has seen to it that the reserved addresses can be read and are in their blocks. */
  method ReadResource(env: Env) returns (reserved: map<Cidr, seq<Address>>)
    requires Sane(env)
    ensures forall ca :: ca in env.assignments ==> Get(reserved, ca.cidr) == Reserved(ca.reservedIPs)
    ensures reserved.Keys == ToSet(Blocks(env.assignments))
  {
    BlocksListedOnce(Blocks(env.assignments));
    hide ParseIP;
    forall i | 0 <= i < |env.assignments|
      ensures AllReadable(env.assignments[i].reservedIPs)
    {
      assert env.assignments[i] in env.assignments;
      assert forall text :: text in env.assignments[i].reservedIPs ==> GoodReserved(env.assignments[i], text);
    }
    var r := LoadReserved(env.assignments);
    reserved := r.value;
    forall ca | ca in env.assignments
      ensures Get(reserved, ca.cidr) == Reserved(ca.reservedIPs)
    {
      var i :| 0 <= i < |env.assignments| && env.assignments[i] == ca;
      ReservedForEntry(env.assignments, i);
    }
  }

  lemma ReservedInBlocks(env: Env, reserved: map<Cidr, seq<Address>>)
    requires Sane(env)
    requires forall ca :: ca in env.assignments ==> Get(reserved, ca.cidr) == Reserved(ca.reservedIPs)
    ensures forall c, a :: c in Blocks(env.assignments) && a in Get(reserved, c) ==> c.Contains(a)
  {
    hide ParseIP, Reserved;
    forall c, a | c in Blocks(env.assignments) && a in Get(reserved, c)
      ensures c.Contains(a)
    {
      var i :| 0 <= i < |env.assignments| && Blocks(env.assignments)[i] == c;
      var ca := env.assignments[i];
      assert ca in env.assignments;
      ReservedElements(ca.reservedIPs, a);
      var text :| text in ca.reservedIPs && ParseIP(text) == Some(a);
      assert GoodReserved(ca, text);
    }
  }

  /** The annotations position by position; a namespace without one is an error. */
  method RowsOf(final: seq<Namespace>) returns (r: Result<seq<seq<Option<Address>>>, Error>)
    ensures r.Success? <==> forall k :: 0 <= k < |final| ==> final[k].egressips.Some?
    ensures r.Success? ==> r.value == Rows(final)
    ensures r.Failure? ==> exists k :: 0 <= k < |final| && final[k].egressips.None? && r.error == NoAnnotation(final[k].name)
  {
    hide Positions;
    var rows: seq<seq<Option<Address>>> := [];
    for k := 0 to |final|
      invariant forall j :: 0 <= j < k ==> final[j].egressips.Some?
      invariant |rows| == k && forall j :: 0 <= j < k ==> rows[j] == Positions(final[j])
    {
      if final[k].egressips.None? {
        return Failure(NoAnnotation(final[k].name));
      }
      rows := rows + [Positions(final[k])];
    }
    return Success(rows);
  }

  ghost predicate Untouched(s: Snapshot, t: Snapshot) {
    t.hostSubnets == s.hostSubnets && t.secondary == s.secondary
  }

  /** How the part after the serving ends. When a block has something to place and no ready node, nothing is written;
      otherwise a placement is. */
  ghost predicate PlaceOutcome(env: Env, s: Snapshot, t: Snapshot, inp: Input, out: Assigned, r: Result<(), Error>) {
    && InputFor(env, s.namespaces, s.hostSubnets, inp) && WellFormed(inp)
    && if exists c :: Stuck(inp, c) then r.Failure? && r.error.NoReadyNode? && Stuck(inp, r.error.c) && Untouched(s, t)
       else IsPlacement(inp, out) && WriteOutcome(env, s, t, out, r)
  }

  /** The part of the cycle after the namespaces were served. */
  method PlaceAndWrite(world: World, env: Env, final: seq<Namespace>, nodesByCidr: map<Cidr, seq<Node>>,
                       ready: set<Node>, selected: set<Node>)
    returns (r: Result<(), Error>, ghost inp: Input, ghost out: Assigned)
    requires Sane(env) && ListsOnce(env.Selected(), world.hostSubnets) && Instantiated(env, Now(world))
    requires SameRequests(final, env.ipam, world.namespaces)
    requires Partition(env.assignments, env.nodes, nodesByCidr)
    requires ready == ReadyNodes(env.nodes) && selected == env.Selected()
    modifies world`secondary, world`hostSubnets
    ensures PlaceOutcome(env, old(Now(world)), Now(world), inp, out, r)
  {
    ghost var s := Now(world);
    out := map[];
    var carried := GetAssignedIPsByNode(world.hostSubnets, selected, ready);
    var rows := RowsOf(final);
    assert rows.Success?;
    var input := Input(Blocks(env.assignments), carried, rows.value, nodesByCidr, ready, selected);
    hide Positions, RequestedBy, WellFormed, Partition, ListsOnce, Sane, SameRequests, WriteOutcome;
    hide OnlyWanted, KeepsAll, PlacesAll, OnceEach, BalancedIn, NodesOf;
    InputIsFor(env, s, input, final);
    inp := input;
    var placed := AssignIPsToNodes(input);
    if placed.Failure? {
      r := Failure(placed.error);
      return;
    }
    out := placed.value;
    PlacedOnSelected(input, placed.value);
    r := WriteSchedule(world, env, placed.value, selected);
  }

  lemma InputIsFor(env: Env, s: Snapshot, inp: Input, final: seq<Namespace>)
    requires Sane(env) && ListsOnce(env.Selected(), s.hostSubnets)
    requires SameRequests(final, env.ipam, s.namespaces)
    requires inp.cidrs == Blocks(env.assignments) && Partition(env.assignments, env.nodes, inp.nodesByCidr)
    requires inp.ready == ReadyNodes(env.nodes) && inp.selected == env.Selected()
    requires inp.carried == map n | n in s.hostSubnets && n in inp.selected && n in inp.ready :: s.hostSubnets[n].egressIPs
    requires inp.rows == Rows(final)
    ensures InputFor(env, s.namespaces, s.hostSubnets, inp) && WellFormed(inp)
  {
    hide Positions, RequestedBy;
    forall a: Address
      ensures Requested(inp, a) <==> RequestedBy(env.ipam, s.namespaces, a)
    {
      assert forall k :: 0 <= k < |final| ==> inp.rows[k] == Positions(final[k]);
      assert Requested(inp, a) <==> exists k :: 0 <= k < |final| && Some(a) in Positions(final[k]);
    }
    InputWellFormed(env, s.namespaces, s.hostSubnets, inp);
  }

  /** Why not every namespace was served. */
  ghost predicate NotServed(env: Env, o: Occupancy, us: seq<Namespace>, served: nat, e: Error) {
    if Readable(o) then served < |us| && StoppedAt(o, served, us[served].name, us[served].name in env.acceptsNamespaces, e)
    else served == 0 && BadStart(o, e)
  }

  /** The part of the cycle that serves the namespaces. */
  method Serve(world: World, env: Env)
    returns (r: Result<seq<Namespace>, Error>, ghost o: Occupancy, ghost us: seq<Namespace>, ghost served: nat)
    requires Sane(env) && KeyedByName(world.namespaces)
    modifies world`namespaces
    ensures ServedFrom(env, old(Now(world)), Now(world), o, us, served)
    ensures r.Success? ==> served == |us| && Readable(o) && SameRequests(r.value, env.ipam, world.namespaces)
    ensures r.Failure? ==> NotServed(env, o, us, served, r.error)
  {
    ghost var s := Now(world);
    var reserved := ReadResource(env);
    ReservedInBlocks(env, reserved);
    var unassigned, annotated := GetReferringNamespaces(world.namespaces, env.ipam);
    var occupancy := Occupancy(Blocks(env.assignments), annotated, reserved, env.nodes.Keys, HostIPsOf(world.hostSubnets), env.infra);
    o, us := occupancy, unassigned;
    assert FreshRead(env, s, o, us);
    hide Listed, Readable, Served, Room, FreeOf, Positions, RequestedBy, StoppedAt, BadStart, SameRequests;
    r, served := AssignIPsToNamespaces(world, occupancy, unassigned, env.acceptsNamespaces);
    if r.Success? {
      FinallyAssigned(env.ipam, o, us, s.namespaces);
      r := Success(annotated + r.value);
    }
  }

  /** How a cycle ends. Hostsubnets and instances are touched only after every namespace was served and the
      netnamespaces were updated. */
  ghost predicate Outcome(env: Env, s: Snapshot, t: Snapshot, o: Occupancy, us: seq<Namespace>, served: nat,
                          inp: Input, out: Assigned, r: Result<(), Error>)
  {
    && ServedFrom(env, s, t, o, us, served)
    && if !Readable(o) || served < |us| then r.Failure? && NotServed(env, o, us, served, r.error) && Untouched(s, t)
       else if !env.netNamespacesUpdated then r == Failure(NetNamespaceUpdateFailed) && Untouched(s, t)
       else PlaceOutcome(env, s.(namespaces := t.namespaces), t, inp, out, r)
  }

  /** The order of the calls is that of processReconcileContext; the lists were read before by loadReconcileContext.
      Whatever happens, the namespaces are those of the start with the first `served` of the unassigned ones served. */
  method ProcessReconcileContext(world: World, env: Env)
    returns (r: Result<(), Error>, ghost o: Occupancy, ghost us: seq<Namespace>, ghost served: nat, ghost inp: Input, ghost out: Assigned)
    requires Sane(env) && KeyedByName(world.namespaces)
    requires ListsOnce(env.Selected(), world.hostSubnets) && Instantiated(env, Now(world))
    requires env.Cloud() || |env.assignments| > 1
    modifies world
    ensures Outcome(env, old(Now(world)), Now(world), o, us, served, inp, out, r)
  {
    inp, out := Input([], map[], [], map[], {}, {}), map[];
    var nodesByCidr := SelectNodesByCIDR(env.assignments, env.nodes);
    var ready, selected := FindReady(env.nodes);
    hide Partition, ReadyNodes, SelectedNodes, Sane, SameRequests, FreshRead, Readable, Served, Room, StoppedAt, BadStart, ListsOnce;
    var final;
    final, o, us, served := Serve(world, env);
    if final.Failure? {
      r := Failure(final.error);
      return;
    }
    if !env.netNamespacesUpdated {
      r := Failure(NetNamespaceUpdateFailed);
      return;
    }
    r, inp, out := PlaceAndWrite(world, env, final.value, nodesByCidr, ready, selected);
  }

  // ---------- what the outcome means ----------

  /** A successful cycle. */
  lemma Succeeded(env: Env, s: Snapshot, t: Snapshot, o: Occupancy, us: seq<Namespace>, served: nat, inp: Input, out: Assigned)
    requires Outcome(env, s, t, o, us, served, inp, out, Success(()))
    ensures Readable(o) && served == |us| && env.netNamespacesUpdated && Cycle(env, s, t, inp, out)
  {
    hide FreshRead, Served, NotServed, InputFor, WellFormed, IsPlacement, WriteOutcome, Readable;
    WrittenInFull(env, s.(namespaces := t.namespaces), t, out);
  }

  /** Nothing stands in the way of a cycle. */
  ghost predicate NothingInTheWay(env: Env, s: Snapshot, o: Occupancy, us: seq<Namespace>, inp: Input, out: Assigned) {
    && Readable(o) && Room(o, |us|) && (forall j :: 0 <= j < |us| ==> us[j].name in env.acceptsNamespaces)
    && env.netNamespacesUpdated
    && (forall c :: !Stuck(inp, c))
    && Reachable(env, s, out) && CallsGo(env, s, out) && UpdatesGo(env, s, out)
  }

  /** A cycle succeeds exactly then. */
  lemma SucceedsIff(env: Env, s: Snapshot, t: Snapshot, o: Occupancy, us: seq<Namespace>, served: nat, inp: Input, out: Assigned,
                    r: Result<(), Error>)
    requires Outcome(env, s, t, o, us, served, inp, out, r)
    ensures r.Success? <==> NothingInTheWay(env, s, o, us, inp, out)
  {
    hide InputFor, WellFormed, IsPlacement, I.BothGo, I.AfterCalls, I.IsExecution, AllAccepted, Stuck, FreeOf, Readable, Served, FreshRead;
    var s' := s.(namespaces := t.namespaces);
    assert PlanFor(s, out) == PlanFor(s', out);
  }
}
