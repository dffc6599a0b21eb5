/** Writing the schedule back to the hostsubnets (hostsubnet.go, reconcileHSAssignedIPs). */
module HostSubnets {
  import opened Addresses
  import opened Collections
  import opened Cluster

  type Hosts = map<Node, HostSubnet>

  /** A hostsubnet needs an update when it does not have the addresses it is to have. */
  predicate NeedsUpdate(before: HostSubnet, wanted: seq<Address>) {
    ToSet(wanted) != ToSet(before.egressIPs)
  }

  /** The hostsubnets after the updates, of which only those of `accepts` go through. */
  ghost function Updated(before: Hosts, selected: set<Node>, wanted: Assigned, accepts: set<Node>): Hosts {
    map h | h in before ::
      if h in selected && h in accepts && NeedsUpdate(before[h], Get(wanted, h)) then before[h].(egressIPs := Get(wanted, h))
      else before[h]
  }

  ghost predicate AllAccepted(before: Hosts, selected: set<Node>, wanted: Assigned, accepts: set<Node>) {
    forall h :: h in before && h in selected && NeedsUpdate(before[h], Get(wanted, h)) ==> h in accepts
  }

  /** The updates run side by side and their order does not matter. */
  method ReconcileHSAssignedIPs(world: World, selected: set<Node>, wanted: Assigned, accepts: set<Node>) returns (ok: bool)
    modifies world`hostSubnets
    ensures world.hostSubnets == Updated(old(world.hostSubnets), selected, wanted, accepts)
    ensures ok <==> AllAccepted(old(world.hostSubnets), selected, wanted, accepts)
  {
    ok := true;
    ghost var before := world.hostSubnets;
    var hosts := world.hostSubnets.Keys * selected;
    var todo := hosts;
    while todo != {}
      invariant todo <= hosts && world.hostSubnets.Keys == before.Keys
      invariant forall h :: h in todo ==> world.hostSubnets[h] == before[h]
      invariant forall h :: h in before && h !in todo ==> world.hostSubnets[h] == Updated(before, selected, wanted, accepts)[h]
      invariant ok <==> forall h :: h in hosts - todo && NeedsUpdate(before[h], Get(wanted, h)) ==> h in accepts
    {
      var h :| h in todo;
      if NeedsUpdate(world.hostSubnets[h], Get(wanted, h)) {
        var done := world.UpdateHostSubnet(h, Get(wanted, h), h in accepts);
        ok := ok && done;
      }
      todo := todo - {h};
    }
    assert hosts - todo == hosts;
  }

  /** The node is selected and its hostsubnet has the address. */
  ghost predicate OnSelected(hosts: Hosts, selected: set<Node>, h: Node, a: Address) {
    h in selected && h in hosts && a in hosts[h].egressIPs
  }

  /** No address is on two of the selected hostsubnets. */
  ghost predicate UniqueOn(hosts: Hosts, selected: set<Node>) {
    forall g, h, a :: OnSelected(hosts, selected, g, a) && OnSelected(hosts, selected, h, a) ==> g == h
  }

  ghost predicate UniqueLists(m: Assigned) {
    forall n, x, a :: a in Get(m, n) && a in Get(m, x) ==> n == x
  }

  ghost predicate Rejected(before: Hosts, wanted: Assigned, accepts: set<Node>, h: Node) {
    h in before && h !in accepts && NeedsUpdate(before[h], Get(wanted, h))
  }

  /** No rejected node still has an address that is to be on another node, where the update went through. */
  ghost predicate Harmless(before: Hosts, selected: set<Node>, wanted: Assigned, accepts: set<Node>) {
    forall h, g, a :: OnSelected(before, selected, h, a) && Rejected(before, wanted, accepts, h) && g in selected && g in before
                      ==> Rejected(before, wanted, accepts, g) || a !in Get(wanted, g)
  }

  lemma OnUpdated(before: Hosts, selected: set<Node>, wanted: Assigned, accepts: set<Node>, h: Node, a: Address)
    requires h in before && h in selected
    ensures OnSelected(Updated(before, selected, wanted, accepts), selected, h, a)
       <==> if Rejected(before, wanted, accepts, h) then OnSelected(before, selected, h, a) else a in Get(wanted, h)
  {
    assert a in before[h].egressIPs <==> a in ToSet(before[h].egressIPs);
    assert a in Get(wanted, h) <==> a in ToSet(Get(wanted, h));
  }

  /** There is no wait here: after an update some of whose calls were rejected, an address is on one selected
      hostsubnet only exactly when no rejected one still has an address that is to be elsewhere. */
  lemma PartialUpdate(before: Hosts, selected: set<Node>, wanted: Assigned, accepts: set<Node>)
    requires UniqueOn(before, selected) && UniqueLists(wanted)
    ensures UniqueOn(Updated(before, selected, wanted, accepts), selected) <==> Harmless(before, selected, wanted, accepts)
  {
    var after := Updated(before, selected, wanted, accepts);
    forall h, a | h in before && h in selected
      ensures OnSelected(after, selected, h, a)
         <==> if Rejected(before, wanted, accepts, h) then OnSelected(before, selected, h, a) else a in Get(wanted, h)
    {
      OnUpdated(before, selected, wanted, accepts, h, a);
    }
    hide Rejected, Updated;
    if UniqueOn(after, selected) {
      forall h, g, a | OnSelected(before, selected, h, a) && Rejected(before, wanted, accepts, h)
                       && g in selected && g in before && !Rejected(before, wanted, accepts, g)
        ensures a !in Get(wanted, g)
      {
        assert OnSelected(after, selected, h, a);
        assert OnSelected(after, selected, g, a) ==> h == g;
      }
    } else {
      var g, h, a :| OnSelected(after, selected, g, a) && OnSelected(after, selected, h, a) && g != h;
      OnlyExisting(before, selected, wanted, accepts, g);
      OnlyExisting(before, selected, wanted, accepts, h);
      assert Rejected(before, wanted, accepts, g) || Rejected(before, wanted, accepts, h);
    }
  }

  lemma OnlyExisting(before: Hosts, selected: set<Node>, wanted: Assigned, accepts: set<Node>, h: Node)
    ensures h in Updated(before, selected, wanted, accepts) <==> h in before
  {
  }
}
