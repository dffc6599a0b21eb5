/** A cycle as it is seen from outside, in terms of the objects before and after it: labels, conditions, annotations,
    hostsubnets and instances. */
module Observed {
  import opened Addresses
  import opened Text
  import opened Collections
  import opened FreeLists
  import opened Cluster
  import opened Loading
  import opened Namespaces
  import A = Allocation
  import opened Assignment
  import opened Placement
  import opened PlacementTheorems
  import opened HostSubnets
  import opened Reconcile
  import opened Given
  import I = Instances

  /** The node matches the selector and is ready. */
  ghost predicate Serving(env: Env, n: Node) {
    n in env.nodes && env.nodes[n].matches && Condition("Ready", "True") in env.nodes[n].conditions
  }

  /** The namespace refers to the resource and has the address in its annotation. */
  ghost predicate WantedBy(env: Env, ns: Namespace, a: Address) {
    ns.egressipam == Some(env.ipam) && Some(a) in Positions(ns)
  }

  ghost predicate IsWanted(env: Env, all: map<string, Namespace>, a: Address) {
    exists n :: n in all && WantedBy(env, all[n], a)
  }

  ghost predicate InResource(env: Env, a: Address) {
    exists ca :: ca in env.assignments && ca.cidr.Contains(a)
  }

  ghost predicate HasIt(hosts: Hosts, h: Node, a: Address) {
    h in hosts && a in hosts[h].egressIPs
  }

  // ---------- namespaces ----------

  /** A cycle changes a namespace only by giving addresses to one that refers to the resource and has none. */
  lemma OnlyOursServed(env: Env, s: Snapshot, t: Snapshot, o: Occupancy, us: seq<Namespace>, served: nat, n: string)
    requires KeyedByName(s.namespaces) && ServedFrom(env, s, t, o, us, served)
    ensures n in t.namespaces <==> n in s.namespaces
    ensures n in s.namespaces && t.namespaces[n] != s.namespaces[n] ==>
              && s.namespaces[n].egressipam == Some(env.ipam) && s.namespaces[n].egressips == None
              && t.namespaces[n].egressips.Some? && t.namespaces[n] == s.namespaces[n].(egressips := t.namespaces[n].egressips)
  {
    hide FreeOf, InBlocks, Served, Share, Readable, FormatAnnotation;
    assert forall i, j :: 0 <= i < j < |us| ==> us[i].name != us[j].name;
    ServedLookup(o, us, served, s.namespaces, n);
    if j :| 0 <= j < served && us[j].name == n {
      assert us[j] in us;
    }
  }

  // ---------- the schedule ----------

  lemma WantedMeans(env: Env, all: map<string, Namespace>, hosts: Hosts, inp: Input, a: Address)
    requires InputFor(env, all, hosts, inp)
    ensures Wanted(inp, a) <==> IsWanted(env, all, a) && InResource(env, a)
    ensures Requested(inp, a) <==> IsWanted(env, all, a)
  {
    assert Requested(inp, a) <==> RequestedBy(env.ipam, all, a);
    assert RequestedBy(env.ipam, all, a) <==> IsWanted(env, all, a) by {
      if RequestedBy(env.ipam, all, a) {
        var n :| n in all && HasAddresses(all[n], env.ipam) && Some(a) in Positions(all[n]);
        assert WantedBy(env, all[n], a);
      }
      if IsWanted(env, all, a) {
        var n :| n in all && WantedBy(env, all[n], a);
        assert HasAddresses(all[n], env.ipam);
      }
    }
    hide Requested, RequestedBy, Partition, IsWanted;
    if InSomeBlock(inp, a) {
      var c :| c in inp.cidrs && c.Contains(a);
      var i :| 0 <= i < |env.assignments| && Blocks(env.assignments)[i] == c;
      assert env.assignments[i] in env.assignments;
    }
    if InResource(env, a) {
      var ca :| ca in env.assignments && ca.cidr.Contains(a);
      var i :| 0 <= i < |env.assignments| && env.assignments[i] == ca;
      assert Blocks(env.assignments)[i] in inp.cidrs;
    }
  }

  lemma CarriedMeans(env: Env, all: map<string, Namespace>, hosts: Hosts, inp: Input, n: Node, a: Address)
    requires InputFor(env, all, hosts, inp)
    ensures a in Get(inp.carried, n) <==> Serving(env, n) && HasIt(hosts, n, a)
    ensures n in inp.ready && n in inp.selected <==> Serving(env, n)
  {
    hide Requested, RequestedBy, Partition;
  }

  lemma BlockMeans(env: Env, all: map<string, Namespace>, hosts: Hosts, inp: Input, c: Cidr, n: Node)
    requires InputFor(env, all, hosts, inp)
    ensures n in Get(inp.nodesByCidr, c) <==> LabelledFor(env.assignments, env.nodes, n, c)
    ensures n in ReadyIn(inp, c) <==> LabelledFor(env.assignments, env.nodes, n, c) && Serving(env, n)
  {
    ListedIff(env.assignments, env.nodes, inp.nodesByCidr, c, n);
    hide Requested, RequestedBy, Partition, LastWith;
  }

  /** What is on the hostsubnet of a selected node after a successful cycle. */
  lemma OnHost(env: Env, s: Snapshot, t: Snapshot, inp: Input, out: Assigned, h: Node, a: Address)
    requires Cycle(env, s, t, inp, out)
    requires h in env.nodes && env.nodes[h].matches && h in s.hostSubnets
    ensures HasIt(t.hostSubnets, h, a) <==> a in Get(out, h)
    ensures ToSet(t.hostSubnets[h].egressIPs) == ToSet(Get(out, h))
  {
    hide InputFor, WellFormed, IsPlacement, OnInstances;
    assert a in Get(out, h) <==> a in ToSet(Get(out, h));
    assert a in t.hostSubnets[h].egressIPs <==> a in ToSet(t.hostSubnets[h].egressIPs);
  }

  /** After a successful cycle every address that a namespace of the resource has is served, if it is in a block: it is
      on the hostsubnet of a ready node that the selector matches, and on a cloud platform on the instance. */
  lemma EveryAddressServed(env: Env, s: Snapshot, t: Snapshot, o: Occupancy, us: seq<Namespace>, served: nat, inp: Input, out: Assigned,
                           a: Address) returns (h: Node)
    requires Outcome(env, s, t, o, us, served, inp, out, Success(()))
    requires IsWanted(env, t.namespaces, a) && InResource(env, a)
    ensures Serving(env, h) && HasIt(t.hostSubnets, h, a)
    ensures env.platform == AWS || env.platform == Azure ==> h in t.secondary && a in t.secondary[h]
  {
    Succeeded(env, s, t, o, us, served, inp, out);
    assert env.nodes.Keys <= s.hostSubnets.Keys by { NodesHosted(env, s, t, o, us, served); }
    hide Outcome;
    WantedMeans(env, t.namespaces, s.hostSubnets, inp, a);
    ExactlyTheWanted(inp, out, a);
    hide Wanted, IsWanted, InResource;
    h :| a in Get(out, h);
    WhereItIs(inp, out, h, a);
    PlacedOnSelected(inp, out);
    CarriedMeans(env, t.namespaces, s.hostSubnets, inp, h, a);
    OnHost(env, s, t, inp, out, h, a);
    if env.platform == AWS || env.platform == Azure {
      InstanceOf(env, s, t, o, us, served, inp, out, h);
      assert a in ToSet(out[h]);
    }
  }

  lemma NodesHosted(env: Env, s: Snapshot, t: Snapshot, o: Occupancy, us: seq<Namespace>, served: nat)
    requires ServedFrom(env, s, t, o, us, served) && Readable(o)
    ensures env.nodes.Keys <= s.hostSubnets.Keys
  {
    hide Listed, InBlocks, Room, Served;
  }

  /** On AWS and on Azure the instance of every node of the schedule has what the schedule says; on bare metal there is
      nothing to change. */
  lemma InstanceOf(env: Env, s: Snapshot, t: Snapshot, o: Occupancy, us: seq<Namespace>, served: nat, inp: Input, out: Assigned, n: Node)
    requires Outcome(env, s, t, o, us, served, inp, out, Success(()))
    ensures env.platform == AWS || env.platform == Azure ==> (n in out ==> n in t.secondary && t.secondary[n] == ToSet(out[n]))
    ensures env.platform == BareMetal ==> t.secondary == s.secondary
  {
    hide ServedFrom, NotServed, Readable, InputFor, WellFormed, IsPlacement, Stuck, I.IsExecution, I.AfterCalls, I.BothGo;
    WrittenInFull(env, s.(namespaces := t.namespaces), t, out);
  }

  /** And nothing else is served: what is on the hostsubnet of a node that the selector matches is an address that a
      namespace of the resource has, in a block, and the node is ready. When no such node had it before, the node's label
      selects the block of the address. */
  lemma NothingElseServed(env: Env, s: Snapshot, t: Snapshot, o: Occupancy, us: seq<Namespace>, served: nat, inp: Input, out: Assigned,
                          h: Node, a: Address)
    requires Outcome(env, s, t, o, us, served, inp, out, Success(()))
    requires h in env.nodes && env.nodes[h].matches && HasIt(t.hostSubnets, h, a)
    ensures Serving(env, h) && IsWanted(env, t.namespaces, a) && InResource(env, a)
    ensures HasIt(s.hostSubnets, h, a)
         || exists ca :: ca in env.assignments && ca.cidr.Contains(a) && LabelledFor(env.assignments, env.nodes, h, ca.cidr)
  {
    Succeeded(env, s, t, o, us, served, inp, out);
    hide Outcome;
    SameHosts(env, s, t, inp, out);
    OnHost(env, s, t, inp, out, h, a);
    WantedMeans(env, t.namespaces, s.hostSubnets, inp, a);
    ExactlyTheWanted(inp, out, a);
    WhereItIs(inp, out, h, a);
    PlacedOnSelected(inp, out);
    hide Wanted, IsWanted, InResource;
    CarriedMeans(env, t.namespaces, s.hostSubnets, inp, h, a);
    if !IsCarried(inp, a) {
      var c :| c in inp.cidrs && c.Contains(a) && h in Get(inp.nodesByCidr, c);
      BlockMeans(env, t.namespaces, s.hostSubnets, inp, c, h);
      EntryOf(env, c);
    }
  }

  lemma SameHosts(env: Env, s: Snapshot, t: Snapshot, inp: Input, out: Assigned)
    requires Cycle(env, s, t, inp, out)
    ensures t.hostSubnets.Keys == s.hostSubnets.Keys
  {
    hide InputFor, WellFormed, IsPlacement;
  }

  lemma EntryOf(env: Env, c: Cidr)
    ensures c in Blocks(env.assignments) <==> exists ca :: ca in env.assignments && ca.cidr == c
  {
    if c in Blocks(env.assignments) {
      var i :| 0 <= i < |env.assignments| && Blocks(env.assignments)[i] == c;
      assert env.assignments[i] in env.assignments;
    }
    if ca :| ca in env.assignments && ca.cidr == c {
      var i :| 0 <= i < |env.assignments| && env.assignments[i] == ca;
      assert Blocks(env.assignments)[i] == c;
    }
  }

  // ---------- when a cycle succeeds ----------

  /** The annotation has an address of block `c` at position `i`. */
  ghost predicate PositionFits(ns: Namespace, i: int, c: Cidr) {
    0 <= i < |Positions(ns)| && Positions(ns)[i].Some? && c.Contains(Positions(ns)[i].value)
  }

  ghost predicate AnnotationsFit(env: Env, all: map<string, Namespace>) {
    forall n, i :: n in all && all[n].egressipam == Some(env.ipam) && all[n].egressips.Some? && 0 <= i < |env.assignments|
                   ==> PositionFits(all[n], i, env.assignments[i].cidr)
  }

  /** Every node has a hostsubnet, and every annotation an address of the right block at each position. */
  lemma ReadableIff(env: Env, s: Snapshot, o: Occupancy, us: seq<Namespace>)
    requires KeyedByName(s.namespaces) && FreshRead(env, s, o, us)
    ensures Readable(o) <==> env.nodes.Keys <= s.hostSubnets.Keys && AnnotationsFit(env, s.namespaces)
  {
    forall ns: Namespace | ns.egressips.Some?
      ensures WellAnnotated(ns, o.cidrs) <==> forall i :: 0 <= i < |env.assignments| ==> PositionFits(ns, i, env.assignments[i].cidr)
    {
      FitsMeans(env, ns);
    }
    hide WellAnnotated, PositionFits, InBlocks, Blocks;
    if AnnotationsFit(env, s.namespaces) {
      forall k | 0 <= k < |o.annotated|
        ensures WellAnnotated(o.annotated[k], o.cidrs)
      {
        var ns := o.annotated[k];
        assert ns in o.annotated;
        assert forall i :: 0 <= i < |env.assignments| ==> PositionFits(s.namespaces[ns.name], i, env.assignments[i].cidr);
      }
    }
    if Readable(o) {
      forall n, i | n in s.namespaces && s.namespaces[n].egressipam == Some(env.ipam) && s.namespaces[n].egressips.Some?
                    && 0 <= i < |env.assignments|
        ensures PositionFits(s.namespaces[n], i, env.assignments[i].cidr)
      {
        var ns := s.namespaces[n];
        var k :| 0 <= k < |o.annotated| && o.annotated[k] == ns;
        assert WellAnnotated(ns, o.cidrs);
      }
    }
  }

  lemma FitsMeans(env: Env, ns: Namespace)
    requires ns.egressips.Some?
    ensures WellAnnotated(ns, Blocks(env.assignments))
       <==> forall i :: 0 <= i < |env.assignments| ==> PositionFits(ns, i, env.assignments[i].cidr)
  {
    hide Positions;
    var cidrs := Blocks(env.assignments);
    assert forall i :: 0 <= i < |cidrs| ==> (ProblemAt(Positions(ns), cidrs, i) == None <==> PositionFits(ns, i, cidrs[i]));
    if WellAnnotated(ns, cidrs) {
      forall i | 0 <= i < |env.assignments|
        ensures PositionFits(ns, i, env.assignments[i].cidr)
      {
        assert ProblemAt(Positions(ns), cidrs, i) == None;
      }
    }
  }

  /** The namespaces that refer to the resource and have no addresses. */
  ghost function Waiting(env: Env, all: map<string, Namespace>): set<string> {
    set n | n in all && all[n].egressipam == Some(env.ipam) && all[n].egressips == None
  }

  lemma {:induction false} NamesOf(us: seq<Namespace>) returns (names: seq<string>)
    requires forall i, j :: 0 <= i < j < |us| ==> us[i].name != us[j].name
    ensures |names| == |us| && NoDup(names)
    ensures forall i :: 0 <= i < |us| ==> names[i] == us[i].name
  {
    names := seq(|us|, i requires 0 <= i < |us| => us[i].name);
  }

  lemma WaitingAre(env: Env, s: Snapshot, o: Occupancy, us: seq<Namespace>)
    requires KeyedByName(s.namespaces) && FreshRead(env, s, o, us)
    ensures |us| == |Waiting(env, s.namespaces)|
    ensures forall n :: n in Waiting(env, s.namespaces) <==> exists j :: 0 <= j < |us| && us[j].name == n
  {
    hide InBlocks;
    var names := NamesOf(us);
    forall n
      ensures n in Waiting(env, s.namespaces) <==> exists j :: 0 <= j < |us| && us[j].name == n
    {
      if n in Waiting(env, s.namespaces) {
        assert s.namespaces[n] in us;
      }
      if j :| 0 <= j < |us| && us[j].name == n {
        assert us[j] in us;
      }
    }
    assert ToSet(names) == Waiting(env, s.namespaces) by {
      assert forall n :: n in names <==> exists j :: 0 <= j < |us| && us[j].name == n;
    }
    NoDupCardinality(names);
  }

  /** The addresses of a block that are not to be given away. */
  ghost function ProtectedIn(env: Env, s: Snapshot, ca: CidrAssignment): set<Address> {
    set a: Address | 0 <= a < SPACE && ca.cidr.Contains(a) && Protected(env, s, ca, a)
  }

  lemma FreeMeans(env: Env, s: Snapshot, o: Occupancy, us: seq<Namespace>, ca: CidrAssignment)
    requires KeyedByName(s.namespaces) && FreshRead(env, s, o, us) && Readable(o) && ca in env.assignments
    ensures ca.cidr in o.cidrs
    ensures |FreeOf(o, ca.cidr)| == ca.cidr.Size() - |ProtectedIn(env, s, ca)|
  {
    EntryOf(env, ca.cidr);
    UsedInBlock(o, ca.cidr);
    FreeCount(ca.cidr, UsedIn(o, ca.cidr));
    forall a: Address
      ensures a in UsedIn(o, ca.cidr) <==> a in ProtectedIn(env, s, ca)
    {
      if ca.cidr.Contains(a) {
        UsedIffProtected(env, s, o, us, ca, a);
      }
    }
    hide UsedIn, ProtectedIn, FreshRead, Readable;
    assert UsedIn(o, ca.cidr) == ProtectedIn(env, s, ca);
  }

  ghost predicate RoomForAll(env: Env, s: Snapshot) {
    forall ca :: ca in env.assignments ==> |Waiting(env, s.namespaces)| + |ProtectedIn(env, s, ca)| <= ca.cidr.Size()
  }

  /** Every block has as many addresses that are not protected as namespaces wait. */
  lemma RoomIff(env: Env, s: Snapshot, o: Occupancy, us: seq<Namespace>)
    requires KeyedByName(s.namespaces) && FreshRead(env, s, o, us) && Readable(o)
    ensures Room(o, |us|) <==> RoomForAll(env, s)
  {
    WaitingAre(env, s, o, us);
    forall ca | ca in env.assignments
      ensures ca.cidr in o.cidrs
      ensures |FreeOf(o, ca.cidr)| == ca.cidr.Size() - |ProtectedIn(env, s, ca)|
    {
      FreeMeans(env, s, o, us, ca);
    }
    forall c | c in o.cidrs
      ensures exists ca :: ca in env.assignments && ca.cidr == c
    {
      EntryOf(env, c);
    }
    hide FreeOf, ProtectedIn, Waiting, Listed, InBlocks, Readable, Blocks;
  }

  /** A wanted address of the block that is on no ready hostsubnet, while no ready node belongs to the block. */
  ghost predicate Homeless(env: Env, s: Snapshot, t: Snapshot, ca: CidrAssignment, a: Address) {
    && ca in env.assignments && ca.cidr.Contains(a) && IsWanted(env, t.namespaces, a)
    && (forall h :: Serving(env, h) ==> !HasIt(s.hostSubnets, h, a))
    && (forall h :: Serving(env, h) ==> !LabelledFor(env.assignments, env.nodes, h, ca.cidr))
  }

  lemma StuckMeans(env: Env, s: Snapshot, t: Snapshot, inp: Input, c: Cidr)
    requires InputFor(env, t.namespaces, s.hostSubnets, inp)
    ensures Stuck(inp, c) <==> exists ca, a :: Homeless(env, s, t, ca, a) && ca.cidr == c
  {
    EntryOf(env, c);
    forall h
      ensures h in ReadyIn(inp, c) <==> LabelledFor(env.assignments, env.nodes, h, c) && Serving(env, h)
    {
      BlockMeans(env, t.namespaces, s.hostSubnets, inp, c, h);
    }
    forall a
      ensures Requested(inp, a) <==> IsWanted(env, t.namespaces, a)
      ensures IsCarried(inp, a) <==> exists h :: Serving(env, h) && HasIt(s.hostSubnets, h, a)
    {
      WantedMeans(env, t.namespaces, s.hostSubnets, inp, a);
      CarriedAnywhere(env, s, t, inp, a);
    }
    assert inp.cidrs == Blocks(env.assignments);
    hide InputFor, IsCarried, Requested, IsWanted, ReadyIn, LabelledFor, Serving, HasIt, Blocks;
    if Stuck(inp, c) {
      var a :| ToPlace(inp, c, a);
      var ca :| ca in env.assignments && ca.cidr == c;
      assert forall h :: h !in ReadyIn(inp, c);
      assert Homeless(env, s, t, ca, a);
    }
    if ca, a :| Homeless(env, s, t, ca, a) && ca.cidr == c {
      assert ToPlace(inp, c, a);
      assert forall h :: h !in ReadyIn(inp, c);
      assert ReadyIn(inp, c) == {};
    }
  }

  lemma CarriedAnywhere(env: Env, s: Snapshot, t: Snapshot, inp: Input, a: Address)
    requires InputFor(env, t.namespaces, s.hostSubnets, inp)
    ensures IsCarried(inp, a) <==> exists h :: Serving(env, h) && HasIt(s.hostSubnets, h, a)
  {
    forall h
      ensures h in inp.carried && a in inp.carried[h] <==> Serving(env, h) && HasIt(s.hostSubnets, h, a)
    {
      CarriedMeans(env, t.namespaces, s.hostSubnets, inp, h, a);
    }
    hide InputFor, Serving, HasIt;
    if h :| Serving(env, h) && HasIt(s.hostSubnets, h, a) {
      assert h in inp.carried && a in inp.carried[h];
    }
  }

  /** The calls that the schedule needs are carried out: on AWS one for each node with something to take away, and with
      something to add; on Azure one for each node in both phases; on bare metal none. */
  ghost predicate NeededCallsGo(env: Env, s: Snapshot, out: Assigned) {
    env.platform == AWS || env.platform == Azure ==>
      forall n :: n in out && n in s.secondary ==>
        && ((env.platform == Azure || s.secondary[n] - ToSet(out[n]) != {}) && n in env.removals ==> env.removals[n] == I.Carried)
        && ((env.platform == Azure || ToSet(out[n]) - s.secondary[n] != {}) && n in env.additions ==> env.additions[n] == I.Carried)
  }

  lemma CallsMean(env: Env, s: Snapshot, out: Assigned)
    requires Reachable(env, s, out)
    ensures CallsGo(env, s, out) <==> NeededCallsGo(env, s, out)
  {
    hide I.BothGo;
    if env.Cloud() {
      var p := PlanFor(s, out);
      I.BothGoIff(p, env.Calls());
      assert forall n :: n in out ==> n in p.target && p.target[n] == ToSet(out[n]) && n in s.secondary;
    }
  }

  /** The updates that the schedule needs are accepted: one for each selected hostsubnet that has other addresses. */
  ghost predicate NeededUpdatesGo(env: Env, s: Snapshot, out: Assigned) {
    forall h :: h in s.hostSubnets && h in env.nodes && env.nodes[h].matches
                ==> ToSet(Get(out, h)) == ToSet(s.hostSubnets[h].egressIPs) || h in env.acceptsHosts
  }

  /** A cycle succeeds exactly when every node has a hostsubnet, the annotations fit, the blocks have room for the
      namespaces that wait, these and the netnamespaces are updated, every wanted address has a node to go to, and the
      calls and updates that the schedule needs go through. */
  lemma SucceedsWhen(env: Env, s: Snapshot, t: Snapshot, o: Occupancy, us: seq<Namespace>, served: nat, inp: Input, out: Assigned,
                     r: Result<(), Error>)
    requires KeyedByName(s.namespaces) && Outcome(env, s, t, o, us, served, inp, out, r)
    ensures r.Success? <==>
              && env.nodes.Keys <= s.hostSubnets.Keys && AnnotationsFit(env, s.namespaces)
              && RoomForAll(env, s) && Waiting(env, s.namespaces) <= env.acceptsNamespaces && env.netNamespacesUpdated
              && (forall ca, a :: !Homeless(env, s, t, ca, a))
              && NeededCallsGo(env, s, out) && NeededUpdatesGo(env, s, out)
  {
    ServedCompletely(env, s, t, o, us, served, r);
    if Readable(o) && served == |us| && env.netNamespacesUpdated {
      hide ServedFrom, Readable, NotServed, WellFormed, IsPlacement, I.IsExecution, I.AfterCalls, I.BothGo, Homeless, NeededCallsGo,
           AnnotationsFit, RoomForAll, Stuck, InputFor;
      PlacedCompletely(env, s, t, inp, out, r);
    } else {
      hide ServedFrom, Readable, PlaceOutcome, Homeless, NeededCallsGo, NeededUpdatesGo, AnnotationsFit, RoomForAll;
    }
  }

  lemma ServedCompletely(env: Env, s: Snapshot, t: Snapshot, o: Occupancy, us: seq<Namespace>, served: nat, r: Result<(), Error>)
    requires KeyedByName(s.namespaces) && ServedFrom(env, s, t, o, us, served)
    requires !Readable(o) || served < |us| ==> r.Failure? && NotServed(env, o, us, served, r.error)
    ensures Readable(o) && served == |us| <==>
              && env.nodes.Keys <= s.hostSubnets.Keys && AnnotationsFit(env, s.namespaces)
              && RoomForAll(env, s) && Waiting(env, s.namespaces) <= env.acceptsNamespaces
  {
    assert FreshRead(env, s, o, us);
    ReadableIff(env, s, o, us);
    WaitingAre(env, s, o, us);
    if Readable(o) {
      RoomIff(env, s, o, us);
      hide FreshRead, Readable, AnnotationsFit, RoomForAll, Waiting, FreeOf;
      if served < |us| {
        assert us[served].name in Waiting(env, s.namespaces);
        assert Room(o, |us|) ==> Room(o, served + 1);
      }
    }
  }

  lemma PlacedCompletely(env: Env, s: Snapshot, t: Snapshot, inp: Input, out: Assigned, r: Result<(), Error>)
    requires PlaceOutcome(env, s.(namespaces := t.namespaces), t, inp, out, r)
    ensures r.Success? <==> (forall ca, a :: !Homeless(env, s, t, ca, a)) && NeededCallsGo(env, s, out) && NeededUpdatesGo(env, s, out)
  {
    var s' := s.(namespaces := t.namespaces);
    assert InputFor(env, t.namespaces, s.hostSubnets, inp);
    forall c
      ensures Stuck(inp, c) <==> exists ca, a :: Homeless(env, s, t, ca, a) && ca.cidr == c
    {
      StuckMeans(env, s, t, inp, c);
    }
    assert (exists c :: Stuck(inp, c)) <==> exists ca, a :: Homeless(env, s, t, ca, a) by {
      hide Stuck, Homeless;
      if ca, a :| Homeless(env, s, t, ca, a) {
        assert Stuck(inp, ca.cidr);
      }
    }
    hide InputFor, WellFormed, IsPlacement, I.IsExecution, I.AfterCalls, I.BothGo, Homeless, Stuck, NeededCallsGo;
    if forall c :: !Stuck(inp, c) {
      CallsMean(env, s', out);
      assert NeededCallsGo(env, s', out) <==> NeededCallsGo(env, s, out) by { SameCalls(env, s, s', out); }
    }
  }

  lemma SameCalls(env: Env, s: Snapshot, s': Snapshot, out: Assigned)
    requires s.secondary == s'.secondary
    ensures NeededCallsGo(env, s, out) <==> NeededCallsGo(env, s', out)
  {
  }

  // ---------- what a failure means ----------

  /** A namespace of the resource with an annotation, in which position `i` is meant for a block. */
  ghost predicate AtPosition(env: Env, s: Snapshot, n: string, i: int) {
    && n in s.namespaces && s.namespaces[n].egressipam == Some(env.ipam) && s.namespaces[n].egressips.Some?
    && 0 <= i < |env.assignments|
  }

  ghost predicate TooShort(env: Env, s: Snapshot, n: string, i: int) {
    AtPosition(env, s, n, i) && i >= |Positions(s.namespaces[n])|
  }

  ghost predicate Unreadable(env: Env, s: Snapshot, n: string, i: int) {
    AtPosition(env, s, n, i) && i < |Positions(s.namespaces[n])| && Positions(s.namespaces[n])[i] == None
  }

  ghost predicate OffBlock(env: Env, s: Snapshot, n: string, i: int) {
    && AtPosition(env, s, n, i) && i < |Positions(s.namespaces[n])| && Positions(s.namespaces[n])[i].Some?
    && !env.assignments[i].cidr.Contains(Positions(s.namespaces[n])[i].value)
  }

  lemma NotReadable(env: Env, s: Snapshot, o: Occupancy, us: seq<Namespace>, e: Error)
    requires KeyedByName(s.namespaces) && FreshRead(env, s, o, us) && BadStart(o, e)
    ensures match e
            case IndexOutOfRange => exists n, i :: TooShort(env, s, n, i)
            case CannotParse => exists n, i :: Unreadable(env, s, n, i)
            case OutsideBlock => exists n, i :: OffBlock(env, s, n, i)
            case NoHostSubnet(n) => n in env.nodes && n !in s.hostSubnets
            case _ => false
  {
    hide Positions, InBlocks;
    if k :| 0 <= k < |o.annotated| && FirstProblem(Positions(o.annotated[k]), o.cidrs, e) {
      var ns := o.annotated[k];
      assert ns in o.annotated;
      var i :| 0 <= i < |o.cidrs| && ProblemAt(Positions(ns), o.cidrs, i) == Some(e);
      assert AtPosition(env, s, ns.name, i) && o.cidrs[i] == env.assignments[i].cidr;
      assert e.IndexOutOfRange? ==> TooShort(env, s, ns.name, i);
      assert e.CannotParse? ==> Unreadable(env, s, ns.name, i);
      assert e.OutsideBlock? ==> OffBlock(env, s, ns.name, i);
    }
  }

  /** The block has fewer addresses to give than namespaces wait. */
  ghost predicate TooFew(env: Env, s: Snapshot, ca: CidrAssignment) {
    ca in env.assignments && |Waiting(env, s.namespaces)| + |ProtectedIn(env, s, ca)| > ca.cidr.Size()
  }

  lemma NotAllServed(env: Env, s: Snapshot, o: Occupancy, us: seq<Namespace>, served: nat, e: Error)
    requires KeyedByName(s.namespaces) && FreshRead(env, s, o, us) && Readable(o)
    requires served < |us| && StoppedAt(o, served, us[served].name, us[served].name in env.acceptsNamespaces, e)
    ensures match e
            case Allocation(cause) => cause.NoMoreAddresses? && exists ca :: TooFew(env, s, ca) && ca.cidr == cause.c
            case UpdateRejected(name) => name in Waiting(env, s.namespaces) && name !in env.acceptsNamespaces
            case _ => false
  {
    WaitingAre(env, s, o, us);
    assert us[served].name in Waiting(env, s.namespaces);
    if e.Allocation? {
      EntryOf(env, e.cause.c);
      assert o.cidrs == Blocks(env.assignments);
      var ca :| ca in env.assignments && ca.cidr == e.cause.c;
      FreeMeans(env, s, o, us, ca);
      assert TooFew(env, s, ca);
    }
  }

  lemma NotWritten(env: Env, s: Snapshot, t: Snapshot, inp: Input, out: Assigned, e: Error)
    requires PlaceOutcome(env, s.(namespaces := t.namespaces), t, inp, out, Failure(e))
    ensures match e
            case NoReadyNode(c) => exists ca, a :: Homeless(env, s, t, ca, a) && ca.cidr == c
            case CloudCallFailed => !NeededCallsGo(env, s, out)
            case HostSubnetUpdateFailed => NeededCallsGo(env, s, out) && !NeededUpdatesGo(env, s, out)
            case _ => false
  {
    var s' := s.(namespaces := t.namespaces);
    assert InputFor(env, t.namespaces, s.hostSubnets, inp);
    hide InputFor, WellFormed, IsPlacement, I.IsExecution, I.AfterCalls, I.BothGo, Homeless, Stuck, NeededCallsGo;
    if e.NoReadyNode? {
      StuckMeans(env, s, t, inp, e.c);
    }
    if forall c :: !Stuck(inp, c) {
      CallsMean(env, s', out);
      SameCalls(env, s, s', out);
    }
  }

  /** Each way to fail has its cause. */
  lemma FailsBecause(env: Env, s: Snapshot, t: Snapshot, o: Occupancy, us: seq<Namespace>, served: nat, inp: Input, out: Assigned, e: Error)
    requires KeyedByName(s.namespaces) && Outcome(env, s, t, o, us, served, inp, out, Failure(e))
    ensures match e
            case IndexOutOfRange => exists n, i :: TooShort(env, s, n, i)
            case CannotParse => exists n, i :: Unreadable(env, s, n, i)
            case OutsideBlock => exists n, i :: OffBlock(env, s, n, i)
            case NoHostSubnet(n) => n in env.nodes && n !in s.hostSubnets
            case Allocation(cause) => cause.NoMoreAddresses? && exists ca :: TooFew(env, s, ca) && ca.cidr == cause.c
            case UpdateRejected(name) => name in Waiting(env, s.namespaces) && name !in env.acceptsNamespaces
            case NoAnnotation(_) => false
            case NoReadyNode(c) => exists ca, a :: Homeless(env, s, t, ca, a) && ca.cidr == c
            case CloudCallFailed => !NeededCallsGo(env, s, out)
            case HostSubnetUpdateFailed => NeededCallsGo(env, s, out) && !NeededUpdatesGo(env, s, out)
            case NetNamespaceUpdateFailed => !env.netNamespacesUpdated
  {
    assert FreshRead(env, s, o, us) && served <= |us| by { hide FreshRead, Readable, Served, Room; }
    hide FreshRead, Readable, Served, Room, BadStart, StoppedAt, PlaceOutcome, TooShort, Unreadable, OffBlock, Waiting, TooFew, Homeless,
         NeededCallsGo, NeededUpdatesGo;
    if !Readable(o) {
      NotReadable(env, s, o, us, e);
    } else if served < |us| {
      NotAllServed(env, s, o, us, served, e);
    } else if env.netNamespacesUpdated {
      NotWritten(env, s, t, inp, out, e);
    }
  }

  /** The namespace whose update was rejected is as it was. */
  lemma RejectedUnchanged(env: Env, s: Snapshot, t: Snapshot, o: Occupancy, us: seq<Namespace>, served: nat, name: string)
    requires KeyedByName(s.namespaces) && ServedFrom(env, s, t, o, us, served) && Readable(o)
    requires served < |us| && name !in env.acceptsNamespaces
    ensures name in s.namespaces ==> name in t.namespaces && t.namespaces[name] == s.namespaces[name]
  {
    hide FreeOf, InBlocks, Served, Share, Readable, FormatAnnotation;
    assert forall i, j :: 0 <= i < j < |us| ==> us[i].name != us[j].name;
    ServedLookup(o, us, served, s.namespaces, name);
  }

  /** A failure touches hostsubnets only when an update of one was rejected, and instances only in that case and when a call
      failed. */
  lemma FailureTouches(env: Env, s: Snapshot, t: Snapshot, o: Occupancy, us: seq<Namespace>, served: nat, inp: Input, out: Assigned, e: Error)
    requires Outcome(env, s, t, o, us, served, inp, out, Failure(e))
    ensures e != HostSubnetUpdateFailed ==> t.hostSubnets == s.hostSubnets
    ensures e != HostSubnetUpdateFailed && e != CloudCallFailed ==> t.secondary == s.secondary
  {
    hide ServedFrom, NotServed, Readable, InputFor, WellFormed, IsPlacement, Stuck, I.IsExecution, I.AfterCalls, I.BothGo;
  }

  // ---------- what is written ----------

  /** A hostsubnet after the schedule was written: only its list of addresses changes, only when the node is selected, the
      list has other addresses, the update is accepted, and all calls were carried out before. */
  lemma HostAfter(env: Env, s: Snapshot, t: Snapshot, out: Assigned, r: Result<(), Error>, h: Node)
    requires WriteOutcome(env, s, t, out, r)
    ensures h in t.hostSubnets <==> h in s.hostSubnets
    ensures h in s.hostSubnets ==>
              t.hostSubnets[h] ==
                if NeededCallsGo(env, s, out) && h in env.nodes && env.nodes[h].matches && h in env.acceptsHosts
                   && ToSet(Get(out, h)) != ToSet(s.hostSubnets[h].egressIPs)
                then HostSubnet(s.hostSubnets[h].hostIP, Get(out, h))
                else s.hostSubnets[h]
  {
    CallsMean(env, s, out);
    hide I.IsExecution, I.AfterCalls, I.BothGo, NeededCallsGo;
  }

  /** No removal that the schedule needs is broken. */
  ghost predicate NeededRemovalsGo(env: Env, s: Snapshot, out: Assigned) {
    forall n :: n in out && n in s.secondary && (env.platform == Azure || s.secondary[n] - ToSet(out[n]) != {}) && n in env.removals
                ==> env.removals[n] == I.Carried
  }

  /** The instance of a node of the schedule after it was written, whatever failed: the surplus addresses are gone, but
      those that a broken call left, and the missing ones have come, but those that a broken call did not bring, when no
      removal was broken. */
  lemma InstanceAfter(env: Env, s: Snapshot, t: Snapshot, out: Assigned, r: Result<(), Error>, n: Node)
    returns (gone: set<Address>, come: set<Address>)
    requires WriteOutcome(env, s, t, out, r) && (env.platform == AWS || env.platform == Azure) && n in out
    ensures n in s.secondary && n in t.secondary
    ensures I.EndsWith(env.removals, n, s.secondary[n] - ToSet(out[n]), gone)
    ensures I.EndsWith(env.additions, n, ToSet(out[n]) - s.secondary[n], come)
    ensures t.secondary[n] == s.secondary[n] - gone + (if NeededRemovalsGo(env, s, out) then come else {})
  {
    hide I.IsExecution, I.AfterCalls, I.BothGo;
    var p := PlanFor(s, out);
    assert p.target[n] == ToSet(out[n]);
    gone, come := I.EndOf(p, env.Calls(), n);
    RemovalsMean(env, s, out);
  }

  lemma RemovalsMean(env: Env, s: Snapshot, out: Assigned)
    requires PlanFor(s, out).Valid()
    ensures I.AllGo(PlanFor(s, out), env.Calls(), true) <==> NeededRemovalsGo(env, s, out)
  {
    var p := PlanFor(s, out);
    forall n | n in out
      ensures n in p.target && n in s.secondary
      ensures I.Goes(p, env.Calls(), true, n) <==>
              (env.platform == Azure || s.secondary[n] - ToSet(out[n]) != {}) && n in env.removals ==> env.removals[n] == I.Carried
    {
    }
    hide I.Goes;
    assert p.target.Keys == out.Keys;
  }
}
