/** Giving every unassigned namespace one address per block (ipam.go, assignIPsToNamespaces). */
module Assignment {
  import opened Words
  import opened Addresses
  import opened Text
  import opened Collections
  import opened FreeLists
  import A = Allocation
  import opened Cluster
  import opened Namespaces

  /** Everything that takes addresses at the start of a cycle. `hostIPs` has the hostsubnet of each node;
      `infra` is what the cloud provider reported. */
  datatype Occupancy = Occupancy(
    cidrs: seq<Cidr>,
    annotated: seq<Namespace>,
    reserved: map<Cidr, seq<Address>>,
    nodes: set<Node>,
    hostIPs: map<Node, Option<Address>>,
    infra: map<Cidr, seq<Address>>)

  ghost predicate IsHostIP(nodes: set<Node>, hostIPs: map<Node, Option<Address>>, a: Address) {
    exists n :: n in nodes && n in hostIPs && hostIPs[n] == Some(a)
  }

  /** What an address of block `c` is used for: written or last address of the block, read from a namespace,
      reserved, of a node, or of the infrastructure. */
  ghost predicate IsUsed(o: Occupancy, c: Cidr, a: Address) {
    || a == c.base
    || a == c.Last()
    || a in ReadAll(o.annotated, o.cidrs, c)
    || a in Get(o.reserved, c)
    || (c.Contains(a) && IsHostIP(o.nodes, o.hostIPs, a))
    || a in Get(o.infra, c)
  }

  ghost function UsedIn(o: Occupancy, c: Cidr): set<Address> {
    set a: Address | 0 <= a < SPACE && IsUsed(o, c, a)
  }

  /** The addresses to be given away, in the order in which they are. */
  ghost function FreeOf(o: Occupancy, c: Cidr): seq<int> {
    Free(c, UsedIn(o, c))
  }

  /** Reserved and infrastructure addresses are in the block they are listed for. */
  ghost predicate InBlocks(o: Occupancy) {
    forall c, a :: c in o.cidrs && (a in Get(o.reserved, c) || a in Get(o.infra, c)) ==> c.Contains(a)
  }

  ghost predicate Readable(o: Occupancy) {
    && (forall k :: 0 <= k < |o.annotated| ==> WellAnnotated(o.annotated[k], o.cidrs))
    && o.nodes <= o.hostIPs.Keys
  }

  /** Why the used addresses cannot be collected: an annotation that does not fit, or a node without hostsubnet. */
  ghost predicate BadStart(o: Occupancy, e: Error) {
    || (exists k :: 0 <= k < |o.annotated| && FirstProblem(Positions(o.annotated[k]), o.cidrs, e))
    || (e.NoHostSubnet? && e.node in o.nodes - o.hostIPs.Keys)
  }

  // ---------- collecting the used addresses ----------

  method AddNetworkAddresses(m: map<Cidr, seq<Address>>) returns (r: map<Cidr, seq<Address>>)
    ensures r.Keys == m.Keys
    ensures forall c :: c in m ==> c.Last() < SPACE && r[c] == m[c] + [c.base, c.Last()]
  {
    r := m;
    var todo := m.Keys;
    while todo != {}
      invariant todo <= m.Keys == r.Keys
      invariant forall c :: c in todo ==> r[c] == m[c]
      invariant forall c :: c in m.Keys - todo ==> c.Last() < SPACE && r[c] == m[c] + [c.base, c.Last()]
    {
      var c :| c in todo;
      c.BroadcastIsLast();
      r := r[c := r[c] + [c.base, c.Broadcast()]];
      todo := todo - {c};
    }
  }

  method AppendEach(m: map<Cidr, seq<Address>>, extra: map<Cidr, seq<Address>>) returns (r: map<Cidr, seq<Address>>)
    ensures r.Keys == m.Keys
    ensures forall c :: c in m ==> r[c] == m[c] + Get(extra, c)
  {
    r := m;
    var todo := m.Keys;
    while todo != {}
      invariant todo <= m.Keys == r.Keys
      invariant forall c :: c in todo ==> r[c] == m[c]
      invariant forall c :: c in m.Keys - todo ==> r[c] == m[c] + Get(extra, c)
    {
      var c :| c in todo;
      r := r[c := r[c] + Get(extra, c)];
      todo := todo - {c};
    }
  }

  lemma AppendedTo(m: map<Cidr, seq<Address>>, c: Cidr, ip: Address, d: Cidr, a: Address)
    ensures a in Get(m[c := Get(m, c) + [ip]], d) <==> a in Get(m, d) || (d == c && a == ip)
  {
    assert a in Get(m, c) + [ip] <==> a in Get(m, c) || a == ip;
  }

  /** Address `a` is to be listed for block `c`, of those listed in `cidrs`. */
  predicate BelongsIn(cidrs: seq<Cidr>, ip: Option<Address>, c: Cidr, a: Address) {
    ip == Some(a) && c in cidrs && c.Contains(a)
  }

  lemma OneMoreListed(cidrs: seq<Cidr>, i: nat, ip: Option<Address>, c: Cidr, a: Address)
    requires i < |cidrs|
    ensures BelongsIn(cidrs[..i + 1], ip, c, a) <==> BelongsIn(cidrs[..i], ip, c, a) || (c == cidrs[i] && ip == Some(a) && c.Contains(a))
  {
    assert cidrs[..i + 1] == cidrs[..i] + [cidrs[i]];
  }

  method AppendWhereContained(m: map<Cidr, seq<Address>>, cidrs: seq<Cidr>, ip: Option<Address>)
    returns (r: map<Cidr, seq<Address>>)
    ensures forall c, a :: a in Get(r, c) <==> a in Get(m, c) || BelongsIn(cidrs, ip, c, a)
  {
    r := m;
    for i := 0 to |cidrs|
      invariant forall c, a :: a in Get(r, c) <==> a in Get(m, c) || BelongsIn(cidrs[..i], ip, c, a)
    {
      ghost var before := r;
      if ip.Some? && cidrs[i].Contains(ip.value) {
        r := r[cidrs[i] := Get(r, cidrs[i]) + [ip.value]];
      }
      hide Get, BelongsIn;
      forall c, a: Address
        ensures a in Get(r, c) <==> a in Get(m, c) || BelongsIn(cidrs[..i + 1], ip, c, a)
      {
        OneMoreListed(cidrs, i, ip, c, a);
        if ip.Some? && cidrs[i].Contains(ip.value) {
          AppendedTo(before, cidrs[i], ip.value, c, a);
        }
      }
    }
    assert cidrs[..|cidrs|] == cidrs;
  }

  method GetNodesIPsByCIDR(cidrs: seq<Cidr>, nodes: set<Node>, hostIPs: map<Node, Option<Address>>)
    returns (r: Result<map<Cidr, seq<Address>>, Error>)
    ensures r.Success? <==> nodes <= hostIPs.Keys
    ensures r.Failure? ==> r.error.NoHostSubnet? && r.error.node in nodes - hostIPs.Keys
    ensures r.Success? ==> forall c, a :: c in cidrs ==>
              (a in Get(r.value, c) <==> c.Contains(a) && IsHostIP(nodes, hostIPs, a))
  {
    var byCidr: map<Cidr, seq<Address>> := map[];
    var todo := nodes;
    while todo != {}
      invariant todo <= nodes && nodes - todo <= hostIPs.Keys
      invariant forall c, a :: c in cidrs ==>
                  (a in Get(byCidr, c) <==> c.Contains(a) && IsHostIP(nodes - todo, hostIPs, a))
    {
      var n :| n in todo;
      if n !in hostIPs {
        return Failure(NoHostSubnet(n));
      }
      byCidr := AppendWhereContained(byCidr, cidrs, hostIPs[n]);
      forall a: Address
        ensures IsHostIP(nodes - (todo - {n}), hostIPs, a) <==> IsHostIP(nodes - todo, hostIPs, a) || hostIPs[n] == Some(a)
      {
        assert n in nodes - (todo - {n});
      }
      todo := todo - {n};
    }
    assert nodes - todo == nodes;
    return Success(byCidr);
  }

  /** Duplicates go by way of a set of texts, whose listing has no particular order. */
  method RemoveDuplicates(m: map<Cidr, seq<Address>>) returns (r: map<Cidr, seq<Address>>)
    ensures r.Keys == m.Keys
    ensures forall c :: c in m ==> NoDup(r[c]) && ToSet(r[c]) == ToSet(m[c])
  {
    r := map[];
    var todo := m.Keys;
    while todo != {}
      invariant todo <= m.Keys && r.Keys == m.Keys - todo
      invariant forall c :: c in r ==> NoDup(r[c]) && ToSet(r[c]) == ToSet(m[c])
    {
      var c :| c in todo;
      var l := Listing(ToSet(m[c]));
      r := r[c := l];
      todo := todo - {c};
    }
  }

  method SortIPs(ips: seq<Address>) returns (r: seq<Address>)
    ensures StrictlyIncreasing(r) && ToSet(r) == ToSet(ips)
  {
    var distinct := Listing(ToSet(ips));
    var sorted := Sort(distinct);
    SameElements(sorted, distinct);
    SortedNoDup(sorted, distinct);
    assert forall i :: 0 <= i < |sorted| ==> sorted[i] in ToSet(sorted);
    r := sorted;
    assert forall x :: x in r <==> x in ToSet(sorted);
    assert forall x :: x in ips <==> x in ToSet(distinct);
  }

  method SortEach(m: map<Cidr, seq<Address>>) returns (r: map<Cidr, seq<Address>>)
    ensures r.Keys == m.Keys
    ensures forall c :: c in m ==> StrictlyIncreasing(r[c]) && ToSet(r[c]) == ToSet(m[c])
  {
    r := m;
    var todo := m.Keys;
    while todo != {}
      invariant todo <= m.Keys == r.Keys
      invariant forall c :: c in todo ==> r[c] == m[c]
      invariant forall c :: c in m.Keys - todo ==> StrictlyIncreasing(r[c]) && ToSet(r[c]) == ToSet(m[c])
    {
      var c :| c in todo;
      var l := SortIPs(r[c]);
      r := r[c := l];
      todo := todo - {c};
    }
  }

  lemma ReadInBlock(o: Occupancy, c: Cidr, a: Address)
    requires Readable(o)
    requires a in ReadAll(o.annotated, o.cidrs, c)
    ensures c.Contains(a)
  {
    ReadAllElements(o.annotated, o.cidrs, c, a);
    var k: nat :| k < |o.annotated| && Carries(Positions(o.annotated[k]), o.cidrs, c, a);
    var j: nat :| j < |o.cidrs| && Holds(Positions(o.annotated[k]), o.cidrs, j, c, a);
    assert WellAnnotated(o.annotated[k], o.cidrs);
    assert ProblemAt(Positions(o.annotated[k]), o.cidrs, j) == None;
  }

  lemma UsedInBlock(o: Occupancy, c: Cidr)
    requires Readable(o) && InBlocks(o) && c in o.cidrs
    ensures forall a :: a in UsedIn(o, c) ==> c.Contains(a)
  {
    c.Bounds();
    forall a | a in UsedIn(o, c)
      ensures c.Contains(a)
    {
      if a in ReadAll(o.annotated, o.cidrs, c) {
        ReadInBlock(o, c, a);
      }
    }
  }

  lemma SortedTracks(o: Occupancy, c: Cidr, s: seq<Address>)
    requires Readable(o) && InBlocks(o) && c in o.cidrs
    requires StrictlyIncreasing(s) && ToSet(s) == UsedIn(o, c)
    ensures A.Tracks(c, s)
  {
    c.Bounds();
    UsedInBlock(o, c);
    forall i | 0 <= i < |s|
      ensures c.Contains(s[i])
    {
      assert s[i] in ToSet(s);
    }
    assert c.Last() in UsedIn(o, c);
    assert c.Last() in ToSet(s);
  }

  lemma CollectedIsUsed(o: Occupancy, c: Cidr, nodeIPs: seq<Address>, s: seq<Address>)
    requires c.Last() < SPACE
    requires forall a :: a in nodeIPs <==> c.Contains(a) && IsHostIP(o.nodes, o.hostIPs, a)
    requires s == ReadAll(o.annotated, o.cidrs, c) + [c.base, c.Last()] + Get(o.reserved, c) + nodeIPs + Get(o.infra, c)
    ensures ToSet(s) == UsedIn(o, c)
  {
    assert forall a :: a in ToSet(s) <==> a in UsedIn(o, c);
  }

  /** The list the allocator starts from is the ascending list of the used addresses. */
  method CollectUsed(o: Occupancy) returns (r: Result<map<Cidr, seq<Address>>, Error>)
    requires InBlocks(o)
    ensures r.Success? <==> Readable(o)
    ensures r.Failure? ==> BadStart(o, r.error)
    ensures r.Success? ==> r.value.Keys == ToSet(o.cidrs)
    ensures r.Success? ==> forall c :: c in r.value ==> A.Tracks(c, r.value[c]) && ToSet(r.value[c]) == UsedIn(o, c)
  {
    var read, _ := SortIPsByCIDR(o.cidrs, o.annotated);
    if read.Failure? {
      return Failure(read.error);
    }
    var m := AddNetworkAddresses(read.value);
    m := AppendEach(m, o.reserved);
    var nodeIPs := GetNodesIPsByCIDR(o.cidrs, o.nodes, o.hostIPs);
    if nodeIPs.Failure? {
      return Failure(nodeIPs.error);
    }
    m := AppendEach(m, nodeIPs.value);
    m := AppendEach(m, o.infra);
    forall c | c in m
      ensures ToSet(m[c]) == UsedIn(o, c)
    {
      CollectedIsUsed(o, c, Get(nodeIPs.value, c), m[c]);
    }
    m := RemoveDuplicates(m);
    m := SortEach(m);
    forall c | c in m
      ensures A.Tracks(c, m[c])
    {
      SortedTracks(o, c, m[c]);
    }
    return Success(m);
  }

  // ---------- serving the namespaces ----------

  /** Every block has at least `n` free addresses. */
  ghost predicate Room(o: Occupancy, n: nat) {
    forall c :: c in o.cidrs ==> n <= |FreeOf(o, c)|
  }

  /** The addresses of the namespace served after `j` others: in each block, the free address number `j`. */
  ghost function Share(o: Occupancy, j: nat): seq<Address>
    requires Room(o, j + 1)
  {
    seq(|o.cidrs|, i requires 0 <= i < |o.cidrs| => FreeAddress(o, o.cidrs[i], j))
  }

  ghost function FreeAddress(o: Occupancy, c: Cidr, j: nat): Address
    requires j < |FreeOf(o, c)|
  {
    FreeElements(c, UsedIn(o, c));
    assert FreeOf(o, c)[j] in FreeOf(o, c);
    FreeOf(o, c)[j]
  }

  function Granted(ns: Namespace, addresses: seq<Address>): Namespace {
    ns.(egressips := Some(FormatAnnotation(addresses)))
  }

  /** The first `n` of `us` as they are written. */
  ghost function Grants(o: Occupancy, us: seq<Namespace>, n: nat): seq<Namespace>
    requires n <= |us| && Room(o, n)
  {
    if n == 0 then [] else Grants(o, us, n - 1) + [Granted(us[n - 1], Share(o, n - 1))]
  }

  /** The namespaces after the first `n` of `us` were served. */
  ghost function Served(o: Occupancy, us: seq<Namespace>, n: nat, all: map<string, Namespace>): map<string, Namespace>
    requires n <= |us| && Room(o, n)
  {
    if n == 0 then all
    else Served(o, us, n - 1, all)[us[n - 1].name := Granted(us[n - 1], Share(o, n - 1))]
  }

  /** What the map of used addresses looks like after `n` namespaces were served. */
  ghost predicate Progress(o: Occupancy, n: nat, byCidr: map<Cidr, seq<Address>>) {
    && byCidr.Keys == ToSet(o.cidrs)
    && Room(o, n)
    && forall c :: c in byCidr ==> Free(c, ToSet(byCidr[c])) == FreeOf(o, c)[n..]
  }

  lemma ProgressStep(o: Occupancy, n: nat, before: map<Cidr, seq<Address>>, after: map<Cidr, seq<Address>>, ips: map<Cidr, Address>)
    requires Progress(o, n, before) && after.Keys == before.Keys == ips.Keys
    requires forall c :: c in before ==> A.Took(c, before[c], after[c], ips[c])
    ensures Progress(o, n + 1, after)
    ensures forall c :: c in ips ==> ips[c] == FreeOf(o, c)[n]
  {
    forall c | c in before
      ensures n < |FreeOf(o, c)| && ips[c] == FreeOf(o, c)[n]
      ensures Free(c, ToSet(after[c])) == FreeOf(o, c)[n + 1..]
    {
      A.TookHead(c, before[c], after[c], ips[c]);
    }
  }

  lemma RoomMade(o: Occupancy, n: nat, byCidr: map<Cidr, seq<Address>>)
    requires Progress(o, n, byCidr)
    ensures Room(o, n)
  {
  }

  lemma NoProgress(o: Occupancy, n: nat, byCidr: map<Cidr, seq<Address>>)
    requires Progress(o, n, byCidr)
    ensures Room(o, n + 1) <==> forall c :: c in byCidr ==> !A.Exhausted(c, byCidr[c])
  {
    if Room(o, n + 1) {
      forall c | c in byCidr
        ensures !A.Exhausted(c, byCidr[c])
      {
        assert n + 1 <= |FreeOf(o, c)|;
      }
    }
    if forall c :: c in byCidr ==> !A.Exhausted(c, byCidr[c]) {
      forall c | c in o.cidrs
        ensures n + 1 <= |FreeOf(o, c)|
      {
        assert c in byCidr;
      }
    }
  }

  /** What stops the cycle at namespace number `n`: a block with no address left, or a rejected update. */
  ghost predicate StoppedAt(o: Occupancy, n: nat, name: string, accept: bool, e: Error) {
    if Room(o, n + 1) then !accept && e == UpdateRejected(name)
    else e.Allocation? && e.cause.NoMoreAddresses? && e.cause.c in o.cidrs && |FreeOf(o, e.cause.c)| <= n
  }

  /** The outcome of serving `us`, of which `served` were updated: what stopped it, and what was returned. */
  ghost predicate ServingOutcome(o: Occupancy, us: seq<Namespace>, accepts: set<string>, served: nat,
                                 r: Result<seq<Namespace>, Error>)
  {
    && served <= |us|
    && Room(o, served)
    && (forall j :: 0 <= j < served ==> us[j].name in accepts)
    && (r.Success? ==> served == |us| && r.value == Grants(o, us, served))
    && (r.Failure? ==> served < |us| && StoppedAt(o, served, us[served].name, us[served].name in accepts, r.error))
  }

  /** One round of the loop: takes an address from every block and updates the namespace. */
  method ServeOne(world: World, used: A.UsedAddresses, ghost o: Occupancy, cidrs: seq<Cidr>,
                  ns: Namespace, accept: bool, ghost n: nat)
    returns (r: Result<Namespace, Error>)
    requires cidrs == o.cidrs
    requires used.Valid() && Progress(o, n, used.byCidr)
    modifies world`namespaces, used
    ensures r.Success? ==> used.Valid() && Progress(o, n + 1, used.byCidr) && Room(o, n + 1) && accept
                           && r.value == Granted(ns, Share(o, n)) && world.namespaces == old(world.namespaces)[ns.name := r.value]
    ensures r.Failure? ==> world.namespaces == old(world.namespaces) && StoppedAt(o, n, ns.name, accept, r.error)
  {
    ghost var before := used.byCidr;
    NoProgress(o, n, before);
    var newIPs := used.GetNextAvailableIPs();
    if newIPs.Failure? {
      return Failure(Allocation(newIPs.error));
    }
    ProgressStep(o, n, before, used.byCidr, newIPs.value);
    var addresses := seq(|cidrs|, i requires 0 <= i < |cidrs| => newIPs.value[cidrs[i]]);
    assert addresses == Share(o, n);
    var granted := Granted(ns, addresses);
    var ok := world.UpdateNamespace(granted, accept);
    if !ok {
      return Failure(UpdateRejected(ns.name));
    }
    return Success(granted);
  }

  method ServeNamespaces(world: World, used: A.UsedAddresses, ghost o: Occupancy, cidrs: seq<Cidr>,
                         us: seq<Namespace>, accepts: set<string>)
    returns (r: Result<seq<Namespace>, Error>, ghost served: nat)
    requires cidrs == o.cidrs
    requires used.Valid() && Progress(o, 0, used.byCidr)
    modifies world`namespaces, used
    ensures ServingOutcome(o, us, accepts, served, r)
    ensures world.namespaces == Served(o, us, served, old(world.namespaces))
  {
    hide Progress, StoppedAt, Room, Granted, Share, FreeOf, A.Tracks;
    RoomMade(o, 0, used.byCidr);
    served := 0;
    var newlyAssigned: seq<Namespace> := [];
    for n := 0 to |us|
      invariant served == n
      invariant used.Valid() && Progress(o, n, used.byCidr) && Room(o, n)
      invariant world.namespaces == Served(o, us, n, old(world.namespaces))
      invariant forall j :: 0 <= j < n ==> us[j].name in accepts
      invariant newlyAssigned == Grants(o, us, n)
    {
      var granted := ServeOne(world, used, o, cidrs, us[n], us[n].name in accepts, n);
      if granted.Failure? {
        return Failure(granted.error), n;
      }
      newlyAssigned := newlyAssigned + [granted.value];
      served := n + 1;
    }
    return Success(newlyAssigned), |us|;
  }

  /** Serves the namespaces one after the other, in the order given. `served` of them are updated: each gets its
      share of the addresses that were free at the start. The first block that runs out or the first rejected
      update stops the cycle, and nothing else does. */
  method AssignIPsToNamespaces(world: World, o: Occupancy, us: seq<Namespace>, accepts: set<string>)
    returns (r: Result<seq<Namespace>, Error>, ghost served: nat)
    requires InBlocks(o)
    modifies world`namespaces
    ensures if Readable(o) then ServingOutcome(o, us, accepts, served, r) else r.Failure? && BadStart(o, r.error) && served == 0
    ensures served <= |us| && Room(o, served) && world.namespaces == Served(o, us, served, old(world.namespaces))
  {
    served := 0;
    var collected := CollectUsed(o);
    if collected.Failure? {
      return Failure(collected.error), 0;
    }
    var used := new A.UsedAddresses(collected.value);
    r, served := ServeNamespaces(world, used, o, o.cidrs, us, accepts);
  }

  /** With every update accepted, the cycle succeeds exactly when every block has room for all of them. */
  lemma Capacity(o: Occupancy, us: seq<Namespace>, accepts: set<string>, served: nat, r: Result<seq<Namespace>, Error>)
    requires Readable(o) && InBlocks(o)
    requires ServingOutcome(o, us, accepts, served, r)
    requires forall j :: 0 <= j < |us| ==> us[j].name in accepts
    ensures r.Success? <==> forall c :: c in o.cidrs ==> |us| + |UsedIn(o, c)| <= c.Size()
  {
    hide Readable, InBlocks, UsedIn, Free, Grants, A.Exhausted;
    forall c | c in o.cidrs
      ensures |FreeOf(o, c)| == c.Size() - |UsedIn(o, c)|
    {
      UsedInBlock(o, c);
      FreeCount(c, UsedIn(o, c));
    }
    if r.Success? {
      assert Room(o, |us|);
    } else {
      var c :| c in o.cidrs && |FreeOf(o, c)| < served + 1;
    }
  }

  // ---------- what Amazon keeps for itself ----------

  /** The three addresses after the written one, as 32-bit additions. */
  function AwsReserved(c: Cidr): seq<Address> {
    [Delta(c.base, 1), Delta(c.base, 2), Delta(c.base, 3)]
  }

  /** What is added to the addresses that the provider reported (aws.go, GetUsedIPsByCIDR). */
  method AddAwsReserved(reported: map<Cidr, seq<Address>>) returns (r: map<Cidr, seq<Address>>)
    ensures r == map c | c in reported :: reported[c] + AwsReserved(c)
  {
    r := reported;
    var todo := reported.Keys;
    while todo != {}
      invariant todo <= reported.Keys == r.Keys
      invariant forall c :: c in todo ==> r[c] == reported[c]
      invariant forall c :: c in reported.Keys - todo ==> r[c] == reported[c] + AwsReserved(c)
    {
      var c :| c in todo;
      r := r[c := r[c] + AwsReserved(c)];
      todo := todo - {c};
    }
  }

  /** The three addresses in 32-bit arithmetic. */
  lemma AwsReservedAre(c: Cidr, a: Address)
    ensures a in AwsReserved(c)
       <==> a == (c.base + 1) % SPACE || a == (c.base + 2) % SPACE || a == (c.base + 3) % SPACE
  {
    assert AwsReserved(c) == [AwsReserved(c)[0], AwsReserved(c)[1], AwsReserved(c)[2]];
  }

  /** They are in the block, as the allocator needs, unless the block ends before. The whole address space is the
      one block that wraps around. */
  lemma AwsReservedInBlock(c: Cidr)
    ensures (forall a :: a in AwsReserved(c) ==> c.Contains(a)) <==> c.prefix == 0 || c.base + 3 <= c.Last()
  {
    c.Bounds();
    SizeAtLeast(c.prefix);
    var a1, a2, a3 := Delta(c.base, 1), Delta(c.base, 2), Delta(c.base, 3);
    assert a1 in AwsReserved(c) && a2 in AwsReserved(c) && a3 in AwsReserved(c);
    assert forall a :: a in AwsReserved(c) <==> a == a1 || a == a2 || a == a3;
    AddSmall(c.base, 1);
    AddSmall(c.base, 2);
    AddSmall(c.base, 3);
    hide RoundDown, Pow2, Delta, AwsReserved;
  }

  lemma AddSmall(a: Address, i: nat)
    requires i <= 3
    ensures Delta(a, i) == if a + i < SPACE then a + i else a + i - SPACE
  {
  }

  /** A block written with its first address has them exactly up to prefix 30. */
  lemma AwsReservedCanonical(c: Cidr)
    requires c.Canonical()
    ensures (forall a :: a in AwsReserved(c) ==> c.Contains(a)) <==> c.prefix <= 30
  {
    AwsReservedInBlock(c);
    SizeAtLeast(c.prefix);
  }

  lemma SizeAtLeast(p: Prefix)
    ensures p <= 30 <==> Pow2(32 - p) >= 4
    ensures p == 0 <==> Pow2(32 - p) == SPACE
  {
    WordSize(0);
    PowIncreases(32 - p, 32);
    assert Pow2(0) == 1 && Pow2(1) == 2 && Pow2(2) == 4;
    PowIncreases(2, 32 - p);
  }

  lemma {:induction false} PowIncreases(m: nat, n: nat)
    ensures m < n ==> Pow2(m) < Pow2(n)
    decreases n
  {
    if m + 1 < n {
      PowIncreases(m, n - 1);
    }
  }
}
