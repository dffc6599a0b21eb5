/** After a cycle that succeeded, the next one has nothing to do. */
module Fixpoint {
  import opened Addresses
  import opened Text
  import opened Collections
  import opened Cluster
  import opened Loading
  import opened Namespaces
  import opened Assignment
  import opened Placement
  import opened PlacementTheorems
  import opened NodeAssignment
  import opened HostSubnets
  import opened Reconcile
  import opened Sharing
  import I = Instances

  /** The resource and the nodes are the same; what the cloud reports and which updates go through may differ. */
  ghost predicate SameCluster(env: Env, env': Env) {
    env.ipam == env'.ipam && env.assignments == env'.assignments && env.nodes == env'.nodes && env.platform == env'.platform
  }

  // ---------- the namespaces ----------

  /** After a successful cycle every namespace that refers to the resource has addresses. */
  lemma EverybodyServed(env: Env, s: Snapshot, t: Snapshot, o: Occupancy, us: seq<Namespace>, n: string)
    requires KeyedByName(s.namespaces) && ServedFrom(env, s, t, o, us, |us|)
    requires n in t.namespaces && t.namespaces[n].egressipam == Some(env.ipam)
    ensures t.namespaces[n].egressips.Some?
  {
    hide FreeOf, InBlocks, Served, Share, Room, FormatAnnotation, Readable;
    var j := AfterServing(env, s, t, o, us, |us|, n);
    if j >= |us| {
      assert s.namespaces[n] !in us;
    }
  }

  lemma NobodyLeft(ipam: string, all: map<string, Namespace>, annotated: seq<Namespace>, us: seq<Namespace>)
    requires Listed(ipam, all, annotated, us)
    requires forall n :: n in all && Refers(all[n], ipam) ==> all[n].egressips.Some?
    ensures us == []
  {
    assert forall ns :: ns !in us;
    assert ToSet(us) == {};
    NoDupCardinality(us);
  }

  /** The next cycle can read everything. */
  lemma NextReadable(env: Env, s: Snapshot, t: Snapshot, o: Occupancy, us: seq<Namespace>,
                     env': Env, o': Occupancy, us': seq<Namespace>)
    requires KeyedByName(s.namespaces) && ServedFrom(env, s, t, o, us, |us|) && Readable(o)
    requires SameCluster(env, env') && t.hostSubnets.Keys == s.hostSubnets.Keys && FreshRead(env', t, o', us')
    ensures Readable(o')
  {
    hide Served, WellAnnotated, InBlocks, Room;
    forall k | 0 <= k < |o'.annotated|
      ensures WellAnnotated(o'.annotated[k], o'.cidrs)
    {
      assert o'.annotated[k] in o'.annotated;
      StaysReadable(env, s, t, o, us, |us|, o'.annotated[k].name);
    }
  }

  // ---------- the schedule ----------

  /** Every selected node has a hostsubnet. */
  ghost predicate Hosted(env: Env, s: Snapshot) {
    env.Selected() <= s.hostSubnets.Keys
  }

  lemma ReadableHosted(env: Env, s: Snapshot, o: Occupancy, us: seq<Namespace>)
    requires FreshRead(env, s, o, us) && Readable(o)
    ensures Hosted(env, s)
  {
    hide Listed, InBlocks;
  }

  /** What is on the hostsubnets after a successful cycle. */
  lemma AfterCycle(env: Env, s: Snapshot, t: Snapshot, inp: Input, out: Assigned, n: Node, a: Address)
    requires Cycle(env, s, t, inp, out)
    ensures t.hostSubnets.Keys == s.hostSubnets.Keys
    ensures n in t.hostSubnets && n in env.Selected() ==>
              (a in t.hostSubnets[n].egressIPs <==> a in Get(out, n)) && ToSet(t.hostSubnets[n].egressIPs) == ToSet(Get(out, n))
    ensures a in Get(out, n) ==> n in inp.ready && n in inp.selected
  {
    hide IsPlacement, WellFormed, Updated, SelectedNodes, Requested, RequestedBy, Partition;
    if a in Get(out, n) {
      WhereItIs(inp, out, n, a);
      PlacedOnSelected(inp, out);
    }
    UpdatedSets(s.hostSubnets, env.Selected(), out, n);
    if n in t.hostSubnets && n in env.Selected() {
      assert a in t.hostSubnets[n].egressIPs <==> a in ToSet(t.hostSubnets[n].egressIPs);
      assert a in Get(out, n) <==> a in ToSet(Get(out, n));
    }
  }

  lemma UpdatedSets(before: Hosts, selected: set<Node>, wanted: Assigned, n: Node)
    ensures Updated(before, selected, wanted, before.Keys).Keys == before.Keys
    ensures n in before && n in selected ==> ToSet(Updated(before, selected, wanted, before.Keys)[n].egressIPs) == ToSet(Get(wanted, n))
  {
  }

  lemma EverythingCarried(env: Env, s: Snapshot, t: Snapshot, inp: Input, out: Assigned, env': Env, next: Input, n: Node, a: Address)
    requires Hosted(env, s) && Cycle(env, s, t, inp, out)
    requires SameCluster(env, env') && InputFor(env', t.namespaces, t.hostSubnets, next)
    ensures a in Get(next.carried, n) <==> a in Get(out, n)
  {
    hide Requested, RequestedBy, Partition, IsPlacement, WellFormed;
    AfterCycle(env, s, t, inp, out, n, a);
    assert a in Get(next.carried, n) <==> n in t.hostSubnets && n in inp.selected && n in inp.ready && a in t.hostSubnets[n].egressIPs;
  }

  lemma SameWanted(env: Env, s: Snapshot, t: Snapshot, inp: Input, out: Assigned, env': Env, next: Input, a: Address)
    requires Cycle(env, s, t, inp, out)
    requires SameCluster(env, env') && InputFor(env', t.namespaces, t.hostSubnets, next)
    ensures Wanted(next, a) <==> exists n :: a in Get(out, n)
  {
    assert Requested(next, a) <==> Requested(inp, a);
    ExactlyTheWanted(inp, out, a);
  }

  /** Every wanted address is carried, where it was put. */
  lemma NothingLeftToPlace(env: Env, s: Snapshot, t: Snapshot, inp: Input, out: Assigned, env': Env, next: Input)
    requires Hosted(env, s) && Cycle(env, s, t, inp, out)
    requires SameCluster(env, env') && InputFor(env', t.namespaces, t.hostSubnets, next)
    ensures forall c, a :: !ToPlace(next, c, a)
    ensures forall c :: !Stuck(next, c)
    ensures forall n :: KeptSet(next, n) == ToSet(Get(out, n))
  {
    hide Requested, RequestedBy, Partition, IsPlacement, WellFormed, InputFor, Cycle, Hosted;
    forall c, a
      ensures !ToPlace(next, c, a)
    {
      if c in next.cidrs && c.Contains(a) && Requested(next, a) {
        assert Wanted(next, a);
        SameWanted(env, s, t, inp, out, env', next, a);
        var n :| a in Get(out, n);
        EverythingCarried(env, s, t, inp, out, env', next, n, a);
        assert n in next.carried && a in next.carried[n];
      }
    }
    forall n
      ensures KeptSet(next, n) == ToSet(Get(out, n))
    {
      forall a
        ensures a in KeptSet(next, n) <==> a in ToSet(Get(out, n))
      {
        EverythingCarried(env, s, t, inp, out, env', next, n, a);
        SameWanted(env, s, t, inp, out, env', next, a);
      }
    }
  }

  lemma SameSchedule(env: Env, s: Snapshot, t: Snapshot, inp: Input, out: Assigned, env': Env, next: Input, again: Assigned)
    requires Hosted(env, s) && Cycle(env, s, t, inp, out)
    requires SameCluster(env, env') && InputFor(env', t.namespaces, t.hostSubnets, next) && IsPlacement(next, again)
    ensures forall n :: ToSet(Get(again, n)) == ToSet(Get(out, n))
    ensures again.Keys <= out.Keys
  {
    NothingLeftToPlace(env, s, t, inp, out, env', next);
    forall n
      ensures ToSet(Get(again, n)) == ToSet(Get(out, n))
    {
      NothingToPlace(next, again, n);
    }
    SamePartition(env, s, t, inp, env', next);
    SameNodes(inp, out, next, again);
  }

  lemma SamePartition(env: Env, s: Snapshot, t: Snapshot, inp: Input, env': Env, next: Input)
    requires SameCluster(env, env') && InputFor(env, t.namespaces, s.hostSubnets, inp) && InputFor(env', t.namespaces, t.hostSubnets, next)
    ensures inp.ready == next.ready && inp.selected == next.selected
    ensures forall c, n :: n in Get(inp.nodesByCidr, c) <==> n in Get(next.nodesByCidr, c)
  {
    hide Requested, RequestedBy, BlockOf;
    forall c, n
      ensures n in Get(inp.nodesByCidr, c) <==> n in Get(next.nodesByCidr, c)
    {
      assert n in Get(inp.nodesByCidr, c) <==> n in env.nodes && BlockOf(env.assignments, env.nodes[n]) == Some(c);
    }
  }

  lemma SameNodes(inp: Input, out: Assigned, next: Input, again: Assigned)
    requires inp.ready == next.ready && inp.selected == next.selected
    requires forall c, n :: n in Get(inp.nodesByCidr, c) <==> n in Get(next.nodesByCidr, c)
    requires NodesOf(inp, out) && NodesOf(next, again)
    requires forall n :: KeptSet(next, n) == ToSet(Get(out, n))
    ensures again.Keys <= out.Keys
  {
    hide KeptSet;
    forall n | n in again
      ensures n in out
    {
      if KeptSet(next, n) == {} {
        if c :| n in ReadyIn(next, c) {
          assert n in ReadyIn(inp, c);
        }
      }
    }
  }

  // ---------- the second cycle ----------

  /** Every call that the second cycle makes goes through; only on Azure does it make any. */
  ghost predicate EmptyCallsGo(env: Env, out: Assigned) {
    env.platform == Azure ==>
      forall n :: n in out ==> (n in env.removals ==> env.removals[n] == I.Carried) && (n in env.additions ==> env.additions[n] == I.Carried)
  }

  /** With the schedule in place, writing it changes nothing, and only a call that changes nothing can fail. */
  lemma WritesNothing(env: Env, t: Snapshot, u: Snapshot, out: Assigned, r: Result<(), Error>)
    requires WriteOutcome(env, t, u, out, r)
    requires env.Cloud() ==> forall n :: n in out ==> t.secondary[n] == ToSet(out[n])
    requires forall h :: h in t.hostSubnets && h in env.Selected() ==> ToSet(t.hostSubnets[h].egressIPs) == ToSet(Get(out, h))
    ensures Untouched(t, u)
    ensures r == if EmptyCallsGo(env, out) then Success(()) else Failure(CloudCallFailed)
  {
    hide I.IsExecution, I.AfterCalls, SelectedNodes;
    if env.Cloud() {
      var p := PlanFor(t, out);
      I.NothingToChange(p, env.Calls());
      assert forall removing, n :: n in p.target ==> I.ToChange(p, removing, n) == {};
      I.BothGoIff(p, env.Calls());
    }
    assert forall h :: h in t.hostSubnets && h in env.Selected() ==> !NeedsUpdate(t.hostSubnets[h], Get(out, h));
    assert Updated(t.hostSubnets, env.Selected(), out, env.acceptsHosts) == t.hostSubnets;
  }

  lemma InPlace(env: Env, s: Snapshot, t: Snapshot, inp: Input, out: Assigned, again: Assigned)
    requires Cycle(env, s, t, inp, out)
    requires forall n :: ToSet(Get(again, n)) == ToSet(Get(out, n))
    requires again.Keys <= out.Keys && (env.Cloud() ==> again.Keys <= t.secondary.Keys)
    ensures env.Cloud() ==> forall n :: n in again ==> t.secondary[n] == ToSet(again[n])
    ensures forall h :: h in t.hostSubnets && h in env.Selected() ==> ToSet(t.hostSubnets[h].egressIPs) == ToSet(Get(again, h))
  {
    hide InputFor, WellFormed, IsPlacement, SelectedNodes;
    forall n | env.Cloud() && n in again
      ensures t.secondary[n] == ToSet(again[n])
    {
      assert ToSet(Get(again, n)) == ToSet(again[n]) && ToSet(Get(out, n)) == ToSet(out[n]);
    }
    forall h | h in t.hostSubnets && h in env.Selected()
      ensures ToSet(t.hostSubnets[h].egressIPs) == ToSet(Get(again, h))
    {
      assert ToSet(t.hostSubnets[h].egressIPs) == ToSet(Get(out, h));
    }
  }

  /** The part of the second cycle that places and writes. */
  lemma PlacesNothing(env: Env, s: Snapshot, t: Snapshot, inp: Input, out: Assigned,
                      env': Env, u: Snapshot, next: Input, again: Assigned, r: Result<(), Error>)
    requires Hosted(env, s) && Cycle(env, s, t, inp, out)
    requires SameCluster(env, env') && PlaceOutcome(env', t, u, next, again, r)
    ensures forall c, a :: !ToPlace(next, c, a)
    ensures Untouched(t, u)
    ensures r == if EmptyCallsGo(env', again) then Success(()) else Failure(CloudCallFailed)
  {
    NothingLeftToPlace(env, s, t, inp, out, env', next);
    hide InputFor, IsPlacement, WellFormed, Stuck, Cycle, Hosted;
    SameSchedule(env, s, t, inp, out, env', next, again);
    hide WriteOutcome;
    assert env'.Cloud() ==> again.Keys <= t.secondary.Keys by { WriteReachable(env', t, u, again, r); }
    InPlace(env, s, t, inp, out, again);
    WritesNothing(env', t, u, again, r);
  }

  lemma WriteReachable(env: Env, t: Snapshot, u: Snapshot, out: Assigned, r: Result<(), Error>)
    requires WriteOutcome(env, t, u, out, r)
    ensures env.Cloud() ==> out.Keys <= t.secondary.Keys
  {
    hide I.IsExecution, I.AfterCalls, I.BothGo;
  }

  /** A successful cycle is a fixpoint: in an unchanged cluster any cycle that follows serves nobody, places nothing and
      leaves everything as it is, even if every update would be rejected and every call fail. It succeeds if the
      netnamespaces are updated, except that on Azure the calls that change nothing have to go through. */
  lemma SecondCycle(env: Env, s: Snapshot, t: Snapshot, o: Occupancy, us: seq<Namespace>, served: nat, inp: Input, out: Assigned,
                    env': Env, u: Snapshot, o': Occupancy, us': seq<Namespace>, served': nat, next: Input, again: Assigned,
                    r: Result<(), Error>)
    requires KeyedByName(s.namespaces) && SameCluster(env, env')
    requires Outcome(env, s, t, o, us, served, inp, out, Success(()))
    requires Outcome(env', t, u, o', us', served', next, again, r)
    ensures us' == [] && u == t
    ensures env'.netNamespacesUpdated ==> forall c, a :: !ToPlace(next, c, a)
    ensures r == if !env'.netNamespacesUpdated then Failure(NetNamespaceUpdateFailed)
                 else if !EmptyCallsGo(env', again) then Failure(CloudCallFailed)
                 else Success(())
  {
    Succeeded(env, s, t, o, us, served, inp, out);
    hide Cycle, NotServed, Readable, PlaceOutcome, EmptyCallsGo, ToPlace;
    ReadableHosted(env, s, o, us);
    assert t.hostSubnets.Keys == s.hostSubnets.Keys by { KeysKept(env, s, t, inp, out); }
    NextReadable(env, s, t, o, us, env', o', us');
    forall n | n in t.namespaces && Refers(t.namespaces[n], env.ipam)
      ensures t.namespaces[n].egressips.Some?
    {
      EverybodyServed(env, s, t, o, us, n);
    }
    NobodyLeft(env.ipam, t.namespaces, o'.annotated, us');
    assert u.namespaces == t.namespaces && t.(namespaces := u.namespaces) == t;
    if env'.netNamespacesUpdated {
      PlacesNothing(env, s, t, inp, out, env', u, next, again, r);
    }
  }

  lemma KeysKept(env: Env, s: Snapshot, t: Snapshot, inp: Input, out: Assigned)
    requires Cycle(env, s, t, inp, out)
    ensures t.hostSubnets.Keys == s.hostSubnets.Keys
  {
    hide InputFor, WellFormed, IsPlacement;
  }
}
