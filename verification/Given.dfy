/** The addresses that a cycle gives away, and those that it does not. */
module Given {
  import opened Words
  import opened Addresses
  import opened Text
  import opened Collections
  import opened FreeLists
  import opened Cluster
  import opened Loading
  import opened Namespaces
  import opened Assignment
  import opened HostSubnets
  import opened Reconcile

  // ---------- free addresses in order ----------

  lemma FreeIffUnused(o: Occupancy, c: Cidr, a: Address)
    requires c.Contains(a)
    ensures a in FreeOf(o, c) <==> !IsUsed(o, c, a)
  {
    FreeElements(c, UsedIn(o, c));
    assert a in UsedIn(o, c) <==> IsUsed(o, c, a);
  }

  lemma GivenIsUnused(o: Occupancy, c: Cidr, j: nat)
    requires j < |FreeOf(o, c)|
    ensures c.Contains(FreeAddress(o, c, j)) && !IsUsed(o, c, FreeAddress(o, c, j))
  {
    FreeElements(c, UsedIn(o, c));
    var a := FreeAddress(o, c, j);
    assert a in FreeOf(o, c);
    FreeIffUnused(o, c, a);
  }

  /** The namespaces served one after the other get ascending addresses, so no two get the same one. */
  lemma InOrder(o: Occupancy, c: Cidr, i: nat, j: nat)
    requires i < j < |FreeOf(o, c)|
    ensures FreeAddress(o, c, i) < FreeAddress(o, c, j)
  {
    FreeElements(c, UsedIn(o, c));
    hide UsedIn, FreeFrom;
  }

  /** No usable address is passed over: the namespace served after `j` others gets the least one above theirs. */
  lemma NonePassedOver(o: Occupancy, c: Cidr, j: nat, x: Address)
    requires j < |FreeOf(o, c)|
    requires c.Contains(x) && !IsUsed(o, c, x)
    requires j > 0 ==> FreeAddress(o, c, j - 1) < x
    ensures FreeAddress(o, c, j) <= x
  {
    FreeIffUnused(o, c, x);
    FreeElements(c, UsedIn(o, c));
    hide UsedIn, FreeFrom, IsUsed;
    var f := FreeOf(o, c);
    var k :| 0 <= k < |f| && f[k] == x;
    assert forall p, q :: 0 <= p <= q < |f| ==> f[p] <= f[q];
  }

  /** An address that is given away at some time has its place in the order. */
  lemma PlaceInOrder(o: Occupancy, c: Cidr, a: Address) returns (j: nat)
    requires c.Contains(a) && !IsUsed(o, c, a)
    ensures j < |FreeOf(o, c)| && FreeAddress(o, c, j) == a
  {
    FreeIffUnused(o, c, a);
    hide UsedIn, FreeFrom, IsUsed;
    j :| j < |FreeOf(o, c)| && FreeOf(o, c)[j] == a;
  }

  // ---------- what a namespace is given ----------

  /** The annotation that is written is read back address by address. */
  lemma GrantedPositions(ns: Namespace, addresses: seq<Address>)
    requires |addresses| >= 1
    ensures |Positions(Granted(ns, addresses))| == |addresses|
    ensures forall i :: 0 <= i < |addresses| ==> Positions(Granted(ns, addresses))[i] == Some(addresses[i])
  {
    AnnotationRoundTrip(addresses);
    hide Split, ParseIP, FormatAnnotation;
  }

  /** Without blocks nothing is written that can be read. */
  lemma GrantedNothing(ns: Namespace)
    ensures Positions(Granted(ns, [])) == [None]
  {
    assert FormatAnnotation([]) == "";
    assert Split("", ',') == [""] && Split("", '.') == [""];
    assert ParseIP("") == None;
  }

  /** A served namespace has its share: at the position of each block one address, that number of the free ones. */
  lemma GrantedCarries(o: Occupancy, ns: Namespace, j: nat, c: Cidr, a: Address)
    requires Room(o, j + 1)
    ensures Carries(Positions(Granted(ns, Share(o, j))), o.cidrs, c, a) <==> c in o.cidrs && a == FreeAddress(o, c, j)
  {
    var share := Share(o, j);
    var ps := Positions(Granted(ns, share));
    if o.cidrs != [] {
      GrantedPositions(ns, share);
      hide Positions, Granted, FreeOf;
      if Carries(ps, o.cidrs, c, a) {
        var i: nat :| i < |o.cidrs| && Holds(ps, o.cidrs, i, c, a);
        assert ps[i] == Some(share[i]) && share[i] == FreeAddress(o, o.cidrs[i], j);
      }
      if c in o.cidrs && a == FreeAddress(o, c, j) {
        var i: nat :| i < |o.cidrs| && o.cidrs[i] == c;
        assert Holds(ps, o.cidrs, i, c, a);
      }
    }
  }

  // ---------- what is never given away ----------

  ghost predicate HostIPOf(env: Env, s: Snapshot, n: Node, a: Address) {
    n in env.nodes && n in s.hostSubnets && s.hostSubnets[n].hostIP == Some(a)
  }

  ghost predicate CarriedBy(env: Env, s: Snapshot, n: string, c: Cidr, a: Address) {
    n in s.namespaces && HasAddresses(s.namespaces[n], env.ipam) && Carries(Positions(s.namespaces[n]), Blocks(env.assignments), c, a)
  }

  ghost predicate ReservedText(ca: CidrAssignment, text: string, a: Address) {
    text in ca.reservedIPs && ParseIP(text) == Some(a)
  }

  /** The address is the written or the last one of the block, listed as reserved, of a node, of the infrastructure,
      or a namespace has it at a position of the block. */
  ghost predicate Protected(env: Env, s: Snapshot, ca: CidrAssignment, a: Address) {
    || a == ca.cidr.base
    || a == ca.cidr.Last()
    || (exists text :: ReservedText(ca, text, a))
    || (exists n :: HostIPOf(env, s, n, a))
    || a in Get(env.infra, ca.cidr)
    || (exists n :: CarriedBy(env, s, n, ca.cidr, a))
  }

  lemma ReadIffCarried(env: Env, s: Snapshot, o: Occupancy, us: seq<Namespace>, c: Cidr, a: Address)
    requires KeyedByName(s.namespaces) && Listed(env.ipam, s.namespaces, o.annotated, us) && o.cidrs == Blocks(env.assignments)
    ensures a in ReadAll(o.annotated, o.cidrs, c) <==> exists n :: CarriedBy(env, s, n, c, a)
  {
    ReadAllElements(o.annotated, o.cidrs, c, a);
    hide ReadAll, Positions, Carries, Blocks;
    if k: nat :| k < |o.annotated| && Carries(Positions(o.annotated[k]), o.cidrs, c, a) {
      assert o.annotated[k] in o.annotated;
      assert CarriedBy(env, s, o.annotated[k].name, c, a);
    }
    if n :| CarriedBy(env, s, n, c, a) {
      assert s.namespaces[n] in o.annotated;
    }
  }

  /** What the allocator counts as used is what the cluster, the resource and the infrastructure say. */
  lemma UsedIffProtected(env: Env, s: Snapshot, o: Occupancy, us: seq<Namespace>, ca: CidrAssignment, a: Address)
    requires KeyedByName(s.namespaces) && FreshRead(env, s, o, us)
    requires ca in env.assignments && ca.cidr.Contains(a)
    ensures IsUsed(o, ca.cidr, a) <==> Protected(env, s, ca, a)
  {
    ReadIffCarried(env, s, o, us, ca.cidr, a);
    ReservedElements(ca.reservedIPs, a);
    hide ReadAll, CarriedBy, Reserved, ParseIP, Listed, InBlocks, Blocks;
    assert IsHostIP(o.nodes, o.hostIPs, a) <==> exists n :: HostIPOf(env, s, n, a) by {
      if IsHostIP(o.nodes, o.hostIPs, a) {
        var n :| n in o.nodes && n in o.hostIPs && o.hostIPs[n] == Some(a);
        assert HostIPOf(env, s, n, a);
      }
      if n :| HostIPOf(env, s, n, a) {
        assert n in o.nodes && n in o.hostIPs && o.hostIPs[n] == Some(a);
      }
    }
    assert (exists text :: ReservedText(ca, text, a)) <==> a in Reserved(ca.reservedIPs) by {
      if text :| text in ca.reservedIPs && ParseIP(text) == Some(a) {
        assert ReservedText(ca, text, a);
      }
    }
  }

  /** Whatever annotation a cycle changes, whether it succeeds or not, gets one address of each block, and none that is
      protected in it. */
  lemma NewAddressesAvoid(env: Env, s: Snapshot, t: Snapshot, o: Occupancy, us: seq<Namespace>, served: nat, n: string, i: nat)
    requires KeyedByName(s.namespaces) && ServedFrom(env, s, t, o, us, served)
    requires n in t.namespaces && (n in s.namespaces ==> t.namespaces[n] != s.namespaces[n])
    requires i < |env.assignments|
    ensures var ps := Positions(t.namespaces[n]);
            && |ps| == |env.assignments| && ps[i].Some? && env.assignments[i].cidr.Contains(ps[i].value)
            && !Protected(env, s, env.assignments[i], ps[i].value)
  {
    hide Protected, FreeOf, Served, Positions, Granted, Readable, InBlocks, IsUsed;
    ServedLookup(o, us, served, s.namespaces, n);
    var j :| 0 <= j < served && us[j].name == n;
    GrantedPositions(us[j], Share(o, j));
    var c := env.assignments[i].cidr;
    assert o.cidrs[i] == c && c in o.cidrs;
    GivenIsUnused(o, c, j);
    UsedIffProtected(env, s, o, us, env.assignments[i], FreeAddress(o, c, j));
  }

  // ---------- the first address of a block ----------

  ghost function Alone(c: Cidr): Occupancy {
    Occupancy([c], [], map[], {}, map[], map[])
  }

  /** When the first address of a block is not used for anything, it is the first to be given away. */
  lemma FirstAddressFirst(o: Occupancy, c: Cidr)
    requires 0 <= c.First() < SPACE && !IsUsed(o, c, c.First())
    ensures FreeOf(o, c) != [] && FreeAddress(o, c, 0) == c.First()
  {
    c.Bounds();
    assert c.First() !in UsedIn(o, c);
    FreeHead(c, UsedIn(o, c), c.First());
  }

  lemma AloneUses(c: Cidr, a: Address)
    ensures Readable(Alone(c)) && InBlocks(Alone(c))
    ensures IsUsed(Alone(c), c, a) <==> a == c.base || a == c.Last()
  {
    var o := Alone(c);
    assert ReadAll(o.annotated, o.cidrs, c) == [];
  }

  /** The first address of a block is not given away in any cycle exactly when the block is written with it. */
  lemma NetworkAddressProtected(c: Cidr)
    ensures c.Canonical() <==> forall o: Occupancy :: c in o.cidrs && Readable(o) && InBlocks(o) ==> c.First() !in FreeOf(o, c)
  {
    c.Bounds();
    if c.Canonical() {
      forall o: Occupancy | c in o.cidrs
        ensures c.First() !in FreeOf(o, c)
      {
        FreeIffUnused(o, c, c.First());
      }
    } else {
      NetworkAddressGiven(c);
      assert FreeOf(Alone(c), c)[0] in FreeOf(Alone(c), c);
    }
  }

  /** Otherwise, with nothing else in the cluster, the first namespace that is served gets it. */
  lemma NetworkAddressGiven(c: Cidr)
    requires !c.Canonical()
    ensures 0 <= c.First() < SPACE
    ensures Readable(Alone(c)) && InBlocks(Alone(c)) && Room(Alone(c), 1)
    ensures FreeOf(Alone(c), c)[0] == c.First() && Share(Alone(c), 0) == [c.First()]
  {
    c.Bounds();
    AloneUses(c, c.First());
    FirstAddressFirst(Alone(c), c);
  }

  // ---------- addresses after the positions of the blocks ----------

  /** A namespace has the address in its annotation, at any position. */
  ghost predicate Annotated(o: Occupancy, a: Address) {
    exists ns :: ns in o.annotated && Some(a) in Positions(ns)
  }

  /** Nothing is given away that is in an annotation. */
  ghost predicate AnnotationsKept(o: Occupancy) {
    forall c, j: nat :: c in o.cidrs && j < |FreeOf(o, c)| ==> !Annotated(o, FreeAddress(o, c, j))
  }

  /** That is so exactly when every address of an annotation counts as used in the block that it is in. */
  lemma KeptIffUsed(o: Occupancy)
    ensures AnnotationsKept(o) <==> forall c, a :: c in o.cidrs && c.Contains(a) && Annotated(o, a) ==> IsUsed(o, c, a)
  {
    hide FreeOf, IsUsed, Annotated;
    if AnnotationsKept(o) {
      forall c, a | c in o.cidrs && c.Contains(a) && Annotated(o, a)
        ensures IsUsed(o, c, a)
      {
        if !IsUsed(o, c, a) {
          var _ := PlaceInOrder(o, c, a);
        }
      }
    }
    if forall c, a :: c in o.cidrs && c.Contains(a) && Annotated(o, a) ==> IsUsed(o, c, a) {
      forall c, j: nat | c in o.cidrs && j < |FreeOf(o, c)|
        ensures !Annotated(o, FreeAddress(o, c, j))
      {
        GivenIsUnused(o, c, j);
      }
    }
  }

  /** The address a namespace has at the position of a block is protected in that block. */
  lemma PositionProtected(o: Occupancy, ns: Namespace, i: nat, a: Address)
    requires ns in o.annotated && i < |o.cidrs| && i < |Positions(ns)| && Positions(ns)[i] == Some(a)
    ensures IsUsed(o, o.cidrs[i], a)
  {
    ReadAllElements(o.annotated, o.cidrs, o.cidrs[i], a);
    hide Positions;
    var k :| 0 <= k < |o.annotated| && o.annotated[k] == ns;
    assert Holds(Positions(o.annotated[k]), o.cidrs, i, o.cidrs[i], a);
    assert Carries(Positions(o.annotated[k]), o.cidrs, o.cidrs[i], a);
  }

  /** The annotation of `ns` has the address at a position after those of the blocks. */
  ghost predicate Extra(o: Occupancy, ns: Namespace, p: nat, a: Address) {
    ns in o.annotated && |o.cidrs| <= p < |Positions(ns)| && Positions(ns)[p] == Some(a)
  }

  ghost predicate ExtrasUsed(o: Occupancy) {
    forall c, ns, p, a :: c in o.cidrs && Extra(o, ns, p, a) && c.Contains(a) ==> IsUsed(o, c, a)
  }

  lemma ExtraIsAnnotated(o: Occupancy, ns: Namespace, p: nat, a: Address)
    requires Extra(o, ns, p, a)
    ensures Annotated(o, a)
  {
    hide Positions;
    assert Positions(ns)[p] in Positions(ns);
  }

  /** Of accepted annotations nothing is given away exactly when every extra address is used otherwise: for the
      positions of the blocks it never is. */
  lemma ExtraNotProtected(o: Occupancy)
    requires Readable(o) && DisjointBlocks(o.cidrs)
    ensures AnnotationsKept(o) <==> ExtrasUsed(o)
  {
    KeptIffUsed(o);
    hide AnnotationsKept, IsUsed, Positions, Extra;
    if AnnotationsKept(o) {
      forall c, ns, p, a | c in o.cidrs && Extra(o, ns, p, a) && c.Contains(a)
        ensures IsUsed(o, c, a)
      {
        ExtraIsAnnotated(o, ns, p, a);
      }
    }
    if ExtrasUsed(o) {
      forall c, a | c in o.cidrs && c.Contains(a) && Annotated(o, a)
        ensures IsUsed(o, c, a)
      {
        AnnotatedIsUsed(o, c, a);
      }
    }
  }

  lemma AnnotatedIsUsed(o: Occupancy, c: Cidr, a: Address)
    requires Readable(o) && DisjointBlocks(o.cidrs) && ExtrasUsed(o)
    requires c in o.cidrs && c.Contains(a) && Annotated(o, a)
    ensures IsUsed(o, c, a)
  {
    hide IsUsed, Positions;
    var ns :| ns in o.annotated && Some(a) in Positions(ns);
    var p :| 0 <= p < |Positions(ns)| && Positions(ns)[p] == Some(a);
    if p < |o.cidrs| {
      var k :| 0 <= k < |o.annotated| && o.annotated[k] == ns;
      assert WellAnnotated(o.annotated[k], o.cidrs);
      assert ns.egressips.Some? by { NoAnnotationNoPositions(ns); }
      assert ProblemAt(Positions(ns), o.cidrs, p) == None;
      PositionProtected(o, ns, p, a);
      var i :| 0 <= i < |o.cidrs| && o.cidrs[i] == c;
      var lower, upper := o.cidrs[if i < p then i else p], o.cidrs[if i < p then p else i];
      assert i == p || Disjoint(lower, upper);
    } else {
      assert Extra(o, ns, p, a);
    }
  }

  lemma NoAnnotationNoPositions(ns: Namespace)
    ensures ns.egressips.None? ==> Positions(ns) == []
  {
  }

  /** Annotations with one address per block, as the program writes them, are safe. */
  lemma ExactAnnotationsKept(o: Occupancy)
    requires Readable(o) && DisjointBlocks(o.cidrs)
    requires forall ns :: ns in o.annotated ==> |Positions(ns)| == |o.cidrs|
    ensures AnnotationsKept(o)
  {
    ExtraNotProtected(o);
  }

  /** The namespace served after `j` others has, of each block, the free address number `j` of the start. */
  lemma ServedHas(env: Env, s: Snapshot, t: Snapshot, o: Occupancy, us: seq<Namespace>, served: nat, c: Cidr, a: Address, j: nat)
    requires ServedFrom(env, s, t, o, us, served) && j < served && c in o.cidrs
    ensures us[j].name in t.namespaces && j < |FreeOf(o, c)|
    ensures Carries(Positions(t.namespaces[us[j].name]), o.cidrs, c, a) <==> FreeAddress(o, c, j) == a
  {
    hide FreeOf, Served, Positions, Granted, FreshRead, Carries, Readable;
    assert DistinctNames(us) by { ListedOnceByName(env, s, o, us); }
    ServedLookup(o, us, served, s.namespaces, us[j].name);
    GrantedCarries(o, us[j], j, c, a);
  }

  lemma HolderNotServed(env: Env, s: Snapshot, o: Occupancy, us: seq<Namespace>, ns: Namespace)
    requires FreshRead(env, s, o, us) && ns in o.annotated
    ensures forall j :: 0 <= j < |us| ==> us[j].name != ns.name
    ensures ns.name in s.namespaces && s.namespaces[ns.name] == ns
  {
    hide InBlocks;
    assert forall j :: 0 <= j < |us| ==> us[j] in us;
  }

  /** In a cycle, the holder of an extra address keeps it, and another namespace gets it exactly when its place in the
      order of the free addresses has come. */
  lemma ExtraGiven(env: Env, s: Snapshot, t: Snapshot, o: Occupancy, us: seq<Namespace>, served: nat,
                   ns: Namespace, p: nat, c: Cidr, a: Address)
    requires ServedFrom(env, s, t, o, us, served)
    requires Extra(o, ns, p, a) && c in o.cidrs && c.Contains(a)
    ensures ns.name in t.namespaces && p < |Positions(t.namespaces[ns.name])| && Positions(t.namespaces[ns.name])[p] == Some(a)
    ensures (exists n :: n in t.namespaces && n != ns.name && !(n in s.namespaces && t.namespaces[n] == s.namespaces[n])
                         && Carries(Positions(t.namespaces[n]), o.cidrs, c, a))
       <==> exists j: nat :: j < served && j < |FreeOf(o, c)| && FreeAddress(o, c, j) == a
  {
    HolderNotServed(env, s, o, us, ns);
    assert DistinctNames(us) by { ListedOnceByName(env, s, o, us); }
    hide FreeOf, Served, Positions, Granted, FreshRead, Carries, Readable;
    ServedLookup(o, us, served, s.namespaces, ns.name);
    if j: nat :| j < served && j < |FreeOf(o, c)| && FreeAddress(o, c, j) == a {
      ServedHas(env, s, t, o, us, served, c, a, j);
      ServedChanged(env, s, t, o, us, served, j);
    }
    if n :| n in t.namespaces && n != ns.name && !(n in s.namespaces && t.namespaces[n] == s.namespaces[n])
            && Carries(Positions(t.namespaces[n]), o.cidrs, c, a) {
      ServedLookup(o, us, served, s.namespaces, n);
      var j: nat :| j < served && us[j].name == n;
      ServedHas(env, s, t, o, us, served, c, a, j);
    }
  }

  lemma ServedChanged(env: Env, s: Snapshot, t: Snapshot, o: Occupancy, us: seq<Namespace>, served: nat, j: nat)
    requires ServedFrom(env, s, t, o, us, served) && j < served
    ensures var n := us[j].name; n in t.namespaces && n in s.namespaces && t.namespaces[n] != s.namespaces[n]
  {
    assert DistinctNames(us) by { ListedOnceByName(env, s, o, us); }
    hide FreeOf, Served, InBlocks, Readable, FormatAnnotation;
    ServedLookup(o, us, served, s.namespaces, us[j].name);
    assert us[j] in us;
  }

  ghost predicate DistinctNames(us: seq<Namespace>) {
    forall i, j :: 0 <= i < j < |us| ==> us[i].name != us[j].name
  }

  lemma ListedOnceByName(env: Env, s: Snapshot, o: Occupancy, us: seq<Namespace>)
    requires FreshRead(env, s, o, us)
    ensures DistinctNames(us)
  {
  }

  /** An annotation of two addresses of the block, of which the second is an extra one. */
  function TwoAddresses(ns: Namespace, c: Cidr): Namespace
    requires c.base + 2 < SPACE
  {
    Granted(ns, [c.base + 2, c.base + 1])
  }

  ghost function AloneWithTwo(ns: Namespace, c: Cidr): Occupancy
    requires c.base + 2 < SPACE
  {
    Occupancy([c], [TwoAddresses(ns, c)], map[], {}, map[], map[])
  }

  lemma TwoPositions(ns: Namespace, c: Cidr)
    requires c.base + 2 < SPACE
    ensures Positions(TwoAddresses(ns, c)) == [Some(c.base + 2), Some(c.base + 1)]
  {
    GrantedPositions(ns, [c.base + 2, c.base + 1]);
  }

  lemma SecondNotUsed(ns: Namespace, c: Cidr)
    requires c.base + 2 < SPACE && c.base + 1 != c.Last()
    ensures !IsUsed(AloneWithTwo(ns, c), c, c.base + 1)
  {
    var o := AloneWithTwo(ns, c);
    TwoPositions(ns, c);
    ReadAllElements(o.annotated, o.cidrs, c, c.base + 1);
    hide Positions, TwoAddresses, ReadAll;
    assert !Carries(Positions(o.annotated[0]), o.cidrs, c, c.base + 1);
  }

  lemma TwoIsReadable(ns: Namespace, c: Cidr)
    requires c.base + 2 < SPACE && c.Contains(c.base + 2)
    ensures Readable(AloneWithTwo(ns, c)) && Annotated(AloneWithTwo(ns, c), c.base + 1)
  {
    var o := AloneWithTwo(ns, c);
    TwoPositions(ns, c);
    hide Positions, TwoAddresses;
    assert o.annotated[0] in o.annotated && Positions(o.annotated[0])[1] == Some(c.base + 1);
    assert ProblemAt(Positions(o.annotated[0]), o.cidrs, 0) == None;
  }

  lemma ThreeAddresses(c: Cidr)
    requires c.Canonical() && c.prefix <= 30
    ensures c.base + 2 < SPACE && c.Contains(c.base + 1) && c.Contains(c.base + 2) && c.base + 1 != c.Last()
  {
    c.Bounds();
    SizeAtLeast(c.prefix);
    hide Pow2, RoundDown;
  }

  /** In a block written with its first address, the second one is given away first unless it is used. */
  lemma LeastIsFirst(o: Occupancy, c: Cidr)
    requires o.cidrs == [c] && c.Canonical() && c.base + 1 < SPACE && c.Contains(c.base + 1) && !IsUsed(o, c, c.base + 1)
    ensures Room(o, 1) && Share(o, 0) == [c.base + 1]
  {
    c.Bounds();
    var second: Address := c.base + 1;
    assert c.base in UsedIn(o, c) && second !in UsedIn(o, c);
    hide UsedIn, RoundDown;
    FreeHead(c, UsedIn(o, c), second);
  }

  /** Such a case: a namespace has the third and the second address of a block, and the next one is given the second. */
  lemma ExtraGivenAway(c: Cidr, ns: Namespace)
    requires c.Canonical() && c.prefix <= 30
    ensures c.base + 2 < SPACE
    ensures var o := AloneWithTwo(ns, c);
            Readable(o) && InBlocks(o) && Annotated(o, c.base + 1) && Room(o, 1) && Share(o, 0) == [c.base + 1]
  {
    ThreeAddresses(c);
    TwoIsReadable(ns, c);
    SecondNotUsed(ns, c);
    hide TwoAddresses, Readable, Annotated, IsUsed, FreeOf;
    LeastIsFirst(AloneWithTwo(ns, c), c);
  }
}
