/** Reading the resource and partitioning the nodes (egressipam_controller.go, IsValid and loadReconcileContext;
    node.go, isCondition and getAssignedIPsByNode). */
module Loading {
  import opened Addresses
  import opened Text
  import opened Collections
  import opened Cluster

  /** One entry of the resource: a label value, a block, and the texts of its reserved addresses. */
  datatype CidrAssignment = CidrAssignment(labelValue: string, cidr: Cidr, reservedIPs: seq<string>)

  datatype Condition = Condition(kind: string, status: string)

  /** A node: its value of the topology label, whether the selector matches it, and its conditions. */
  datatype NodeObject = NodeObject(zone: Option<string>, matches: bool, conditions: seq<Condition>)

  ghost predicate GoodReserved(ca: CidrAssignment, text: string) {
    var ip := ParseIP(text);
    ip.Some? && ca.cidr.Contains(ip.value)
  }

  /** The resource is valid when every reserved address can be read and is in its block. */
  method IsValid(assignments: seq<CidrAssignment>) returns (ok: bool)
    ensures ok <==> forall ca, text :: ca in assignments && text in ca.reservedIPs ==>
              exists a :: ParseIP(text) == Some(a) && ca.cidr.Contains(a)
  {
    assert forall ca: CidrAssignment, text :: GoodReserved(ca, text) <==> exists a :: ParseIP(text) == Some(a) && ca.cidr.Contains(a) by {
      forall ca: CidrAssignment, text
        ensures GoodReserved(ca, text) <==> exists a :: ParseIP(text) == Some(a) && ca.cidr.Contains(a)
      {
        if GoodReserved(ca, text) {
          assert ParseIP(text) == Some(ParseIP(text).value);
        }
      }
    }
    for i := 0 to |assignments|
      invariant forall ca, text :: ca in assignments[..i] && text in ca.reservedIPs ==> GoodReserved(ca, text)
    {
      var ca := assignments[i];
      for j := 0 to |ca.reservedIPs|
        invariant forall text :: text in ca.reservedIPs[..j] ==> GoodReserved(ca, text)
      {
        var ip := ParseIP(ca.reservedIPs[j]);
        if ip.None? || !ca.cidr.Contains(ip.value) {
          assert !GoodReserved(ca, ca.reservedIPs[j]);
          return false;
        }
      }
    }
    return true;
  }

  // ---------- blocks ----------

  function Blocks(assignments: seq<CidrAssignment>): seq<Cidr> {
    seq(|assignments|, i requires 0 <= i < |assignments| => assignments[i].cidr)
  }

  /** The block that a label value selects: the last entry with that value. */
  function BlockFor(assignments: seq<CidrAssignment>, zone: string): Option<Cidr> {
    if assignments == [] then None
    else
      var last := assignments[|assignments| - 1];
      if last.labelValue == zone then Some(last.cidr) else BlockFor(assignments[..|assignments| - 1], zone)
  }

  lemma {:induction false} BlockForIsBlock(assignments: seq<CidrAssignment>, zone: string)
    ensures var c := BlockFor(assignments, zone); c.Some? ==> c.value in Blocks(assignments)
  {
    if assignments != [] {
      var n := |assignments| - 1;
      BlockForIsBlock(assignments[..n], zone);
      assert Blocks(assignments)[n] == assignments[n].cidr;
      assert forall i :: 0 <= i < n ==> Blocks(assignments[..n])[i] == Blocks(assignments)[i];
    }
  }

  /** Entry `i` is the last one with the label value. */
  ghost predicate LastWith(assignments: seq<CidrAssignment>, zone: string, i: int) {
    && 0 <= i < |assignments| && assignments[i].labelValue == zone
    && forall k :: i < k < |assignments| ==> assignments[k].labelValue != zone
  }

  lemma {:induction false} LastDecides(assignments: seq<CidrAssignment>, zone: string, c: Cidr)
    ensures BlockFor(assignments, zone) == Some(c) <==> exists i :: LastWith(assignments, zone, i) && assignments[i].cidr == c
    ensures BlockFor(assignments, zone) == None <==> forall ca :: ca in assignments ==> ca.labelValue != zone
  {
    if assignments != [] {
      var n := |assignments| - 1;
      var init := assignments[..n];
      assert assignments == init + [assignments[n]];
      LastDecides(init, zone, c);
      if assignments[n].labelValue == zone {
        assert LastWith(assignments, zone, n);
      } else {
        assert forall i :: LastWith(init, zone, i) ==> LastWith(assignments, zone, i);
        assert forall i :: LastWith(assignments, zone, i) ==> i < n && LastWith(init, zone, i);
      }
    }
  }

  method LoadLabels(assignments: seq<CidrAssignment>) returns (byLabel: map<string, Cidr>)
    ensures forall zone :: zone in byLabel <==> BlockFor(assignments, zone).Some?
    ensures forall zone :: zone in byLabel ==> BlockFor(assignments, zone) == Some(byLabel[zone])
    ensures forall zone :: zone in byLabel ==> exists i :: LastWith(assignments, zone, i) && byLabel[zone] == assignments[i].cidr
  {
    byLabel := map[];
    for i := 0 to |assignments|
      invariant forall zone :: zone in byLabel <==> BlockFor(assignments[..i], zone).Some?
      invariant forall zone :: zone in byLabel ==> BlockFor(assignments[..i], zone) == Some(byLabel[zone])
    {
      assert assignments[..i + 1][..i] == assignments[..i];
      byLabel := byLabel[assignments[i].labelValue := assignments[i].cidr];
    }
    assert assignments[..|assignments|] == assignments;
    forall zone | zone in byLabel
      ensures exists i :: LastWith(assignments, zone, i) && byLabel[zone] == assignments[i].cidr
    {
      LastDecides(assignments, zone, byLabel[zone]);
    }
  }

  /** The readable reserved addresses of an entry. */
  function Reserved(texts: seq<string>): seq<Address> {
    if texts == [] then []
    else
      var ip := ParseIP(texts[|texts| - 1]);
      Reserved(texts[..|texts| - 1]) + (if ip.Some? then [ip.value] else [])
  }

  ghost predicate AllReadable(texts: seq<string>) {
    forall text :: text in texts ==> ParseIP(text).Some?
  }

  method ReadReserved(texts: seq<string>) returns (r: Option<seq<Address>>)
    ensures r.Some? <==> AllReadable(texts)
    ensures r.Some? ==> r.value == Reserved(texts)
  {
    hide ParseIP;
    var ips: seq<Address> := [];
    for j := 0 to |texts|
      invariant ips == Reserved(texts[..j])
      invariant AllReadable(texts[..j])
    {
      assert texts[..j + 1][..j] == texts[..j];
      var ip := ParseIP(texts[j]);
      if ip.None? {
        return None;
      }
      ips := ips + [ip.value];
    }
    assert texts[..|texts|] == texts;
    return Some(ips);
  }

  /** The reserved addresses of a block: those of the last entry that lists it. */
  function ReservedFor(assignments: seq<CidrAssignment>, c: Cidr): seq<Address> {
    if assignments == [] then []
    else
      var last := assignments[|assignments| - 1];
      if last.cidr == c then Reserved(last.reservedIPs) else ReservedFor(assignments[..|assignments| - 1], c)
  }

  /** When the blocks do not overlap there is one entry for each. */
  lemma {:induction false} ReservedForEntry(assignments: seq<CidrAssignment>, i: nat)
    requires i < |assignments| && NoDup(Blocks(assignments))
    ensures ReservedFor(assignments, assignments[i].cidr) == Reserved(assignments[i].reservedIPs)
  {
    hide Reserved;
    var n := |assignments| - 1;
    if i < n {
      var cidrs := Blocks(assignments);
      assert cidrs[i] != cidrs[n];
      assert Blocks(assignments[..n]) == cidrs[..n];
      ReservedForEntry(assignments[..n], i);
    }
  }

  lemma {:induction false} ReservedElements(texts: seq<string>, a: Address)
    ensures a in Reserved(texts) <==> exists text :: text in texts && ParseIP(text) == Some(a)
  {
    hide ParseIP;
    if texts != [] {
      var init, last := texts[..|texts| - 1], texts[|texts| - 1];
      assert texts == init + [last];
      ReservedElements(init, a);
      assert last in texts;
    }
  }

  /** The reserved addresses by block; for a block listed twice the last entry counts. */
  method LoadReserved(assignments: seq<CidrAssignment>) returns (r: Result<map<Cidr, seq<Address>>, Error>)
    ensures r.Success? <==> forall i :: 0 <= i < |assignments| ==> AllReadable(assignments[i].reservedIPs)
    ensures r.Success? ==> r.value.Keys == ToSet(Blocks(assignments))
    ensures r.Success? ==> forall c :: Get(r.value, c) == ReservedFor(assignments, c)
  {
    hide AllReadable, Reserved;
    var cidrs := Blocks(assignments);
    var byCidr: map<Cidr, seq<Address>> := map[];
    for i := 0 to |assignments|
      invariant byCidr.Keys == ToSet(cidrs[..i])
      invariant forall j :: 0 <= j < i ==> AllReadable(assignments[j].reservedIPs)
      invariant forall c :: Get(byCidr, c) == ReservedFor(assignments[..i], c)
    {
      assert assignments[..i + 1][..i] == assignments[..i];
      var ips := ReadReserved(assignments[i].reservedIPs);
      if ips.None? {
        return Failure(CannotParse);
      }
      assert cidrs[..i + 1] == cidrs[..i] + [cidrs[i]];
      byCidr := byCidr[cidrs[i] := ips.value];
    }
    assert cidrs[..|assignments|] == cidrs && assignments[..|assignments|] == assignments;
    return Success(byCidr);
  }

  // ---------- nodes ----------

  method IsCondition(conditions: seq<Condition>, kind: string, status: string) returns (r: bool)
    ensures r <==> Condition(kind, status) in conditions
  {
    for i := 0 to |conditions|
      invariant Condition(kind, status) !in conditions[..i]
    {
      if kind == conditions[i].kind && status == conditions[i].status {
        return true;
      }
    }
    return false;
  }

  ghost function ReadyNodes(nodes: map<Node, NodeObject>): set<Node> {
    set n | n in nodes && Condition("Ready", "True") in nodes[n].conditions
  }

  ghost function SelectedNodes(nodes: map<Node, NodeObject>): set<Node> {
    set n | n in nodes && nodes[n].matches
  }

  method FindReady(nodes: map<Node, NodeObject>) returns (ready: set<Node>, selected: set<Node>)
    ensures ready == ReadyNodes(nodes) && selected == SelectedNodes(nodes)
  {
    ready, selected := {}, {};
    var todo := nodes.Keys;
    while todo != {}
      invariant todo <= nodes.Keys
      invariant ready == ReadyNodes(nodes) - todo && selected == SelectedNodes(nodes) - todo
    {
      var n :| n in todo;
      var isReady := IsCondition(nodes[n].conditions, "Ready", "True");
      ready := if isReady then ready + {n} else ready;
      selected := if nodes[n].matches then selected + {n} else selected;
      todo := todo - {n};
    }
  }

  /** The block a node belongs to, if any. */
  ghost function BlockOf(assignments: seq<CidrAssignment>, node: NodeObject): Option<Cidr> {
    if node.matches && node.zone.Some? then BlockFor(assignments, node.zone.value) else None
  }

  /** The selected nodes of each block: each node once, and in no more than one block. */
  ghost predicate Partition(assignments: seq<CidrAssignment>, nodes: map<Node, NodeObject>, byCidr: map<Cidr, seq<Node>>) {
    && (forall c :: c in byCidr ==> NoDup(byCidr[c]))
    && (forall c, n :: n in Get(byCidr, c) <==> n in nodes && BlockOf(assignments, nodes[n]) == Some(c))
    && (forall c :: c in byCidr ==> byCidr[c] != [])
  }

  /** The partition restricted to the nodes seen so far. */
  ghost predicate Partial(assignments: seq<CidrAssignment>, nodes: map<Node, NodeObject>, seen: set<Node>, byCidr: map<Cidr, seq<Node>>) {
    && (forall c :: c in byCidr ==> NoDup(byCidr[c]) && byCidr[c] != [])
    && (forall c, n :: n in Get(byCidr, c) <==> n in seen && n in nodes && BlockOf(assignments, nodes[n]) == Some(c))
  }

  lemma PartialStep(assignments: seq<CidrAssignment>, nodes: map<Node, NodeObject>, seen: set<Node>, byCidr: map<Cidr, seq<Node>>, n: Node)
    requires Partial(assignments, nodes, seen, byCidr) && n in nodes && n !in seen
    ensures var c := BlockOf(assignments, nodes[n]);
            Partial(assignments, nodes, seen + {n}, if c.Some? then byCidr[c.value := Get(byCidr, c.value) + [n]] else byCidr)
  {
    hide BlockOf;
    var c := BlockOf(assignments, nodes[n]);
    if c.Some? {
      var byCidr' := byCidr[c.value := Get(byCidr, c.value) + [n]];
      forall d, x
        ensures x in Get(byCidr', d) <==> x in seen + {n} && x in nodes && BlockOf(assignments, nodes[x]) == Some(d)
      {
        assert x in Get(byCidr', d) <==> x in Get(byCidr, d) || (x == n && d == c.value);
      }
      assert n !in Get(byCidr, c.value);
    }
  }

  method SelectNodesByCIDR(assignments: seq<CidrAssignment>, nodes: map<Node, NodeObject>) returns (byCidr: map<Cidr, seq<Node>>)
    ensures Partition(assignments, nodes, byCidr)
    ensures forall c, n :: n in Get(byCidr, c) <==> LabelledFor(assignments, nodes, n, c)
  {
    var byLabel := LoadLabels(assignments);
    byCidr := map[];
    hide BlockFor;
    var todo := nodes.Keys;
    while todo != {}
      invariant todo <= nodes.Keys
      invariant Partial(assignments, nodes, nodes.Keys - todo, byCidr)
    {
      var n :| n in todo;
      var node := nodes[n];
      PartialStep(assignments, nodes, nodes.Keys - todo, byCidr, n);
      if node.matches && node.zone.Some? && node.zone.value in byLabel {
        var c := byLabel[node.zone.value];
        assert BlockOf(assignments, node) == Some(c);
        byCidr := byCidr[c := Get(byCidr, c) + [n]];
      } else {
        assert BlockOf(assignments, node) == None;
      }
      assert nodes.Keys - todo + {n} == nodes.Keys - (todo - {n});
      todo := todo - {n};
    }
    assert nodes.Keys - todo == nodes.Keys;
    forall c, n
      ensures n in Get(byCidr, c) <==> LabelledFor(assignments, nodes, n, c)
    {
      ListedIff(assignments, nodes, byCidr, c, n);
    }
  }

  /** A node is listed under a block exactly when the selector matches it and the last entry with its label value has
      the block. */
  lemma ListedIff(assignments: seq<CidrAssignment>, nodes: map<Node, NodeObject>, byCidr: map<Cidr, seq<Node>>, c: Cidr, n: Node)
    requires Partition(assignments, nodes, byCidr)
    ensures n in Get(byCidr, c) <==> LabelledFor(assignments, nodes, n, c)
  {
    if n in nodes && nodes[n].zone.Some? {
      LastDecides(assignments, nodes[n].zone.value, c);
    }
  }

  ghost predicate LabelledFor(assignments: seq<CidrAssignment>, nodes: map<Node, NodeObject>, n: Node, c: Cidr) {
    && n in nodes && nodes[n].matches && nodes[n].zone.Some?
    && exists i :: LastWith(assignments, nodes[n].zone.value, i) && assignments[i].cidr == c
  }

  /** The selected nodes are partitioned by block. */
  lemma OneBlockPerNode(assignments: seq<CidrAssignment>, nodes: map<Node, NodeObject>, byCidr: map<Cidr, seq<Node>>)
    requires Partition(assignments, nodes, byCidr)
    ensures forall c, d, n :: n in Get(byCidr, c) && n in Get(byCidr, d) ==> c == d
    ensures forall c :: c in byCidr ==> c in Blocks(assignments)
    ensures forall c, n :: n in Get(byCidr, c) ==> n in SelectedNodes(nodes)
  {
    forall c | c in byCidr
      ensures c in Blocks(assignments)
    {
      var n := byCidr[c][0];
      assert n in Get(byCidr, c);
      BlockForIsBlock(assignments, nodes[n].zone.value);
    }
    forall c, d, n | n in Get(byCidr, c) && n in Get(byCidr, d)
      ensures c == d
    {
      assert Some(c) == BlockOf(assignments, nodes[n]) == Some(d);
    }
  }

  /** The egress addresses of the selected hostsubnets whose node is ready. */
  method GetAssignedIPsByNode(hosts: map<Node, HostSubnet>, selected: set<Node>, ready: set<Node>) returns (r: Assigned)
    ensures r == map n | n in hosts && n in selected && n in ready :: hosts[n].egressIPs
  {
    r := map[];
    var todo := hosts.Keys;
    while todo != {}
      invariant todo <= hosts.Keys
      invariant r == map n | n in hosts.Keys - todo && n in selected && n in ready :: hosts[n].egressIPs
    {
      var n :| n in todo;
      if n in selected && n in ready {
        r := r[n := hosts[n].egressIPs];
      }
      todo := todo - {n};
    }
  }
}
