/** No two namespaces get the same address, and every cycle can read what the one before wrote. */
module Sharing {
  import opened Addresses
  import opened Text
  import opened Collections
  import opened Cluster
  import opened Loading
  import opened Namespaces
  import opened Assignment
  import opened Reconcile
  import opened Given

  // ---------- annotations stay readable ----------

  /** An annotation as the program writes them: an address of each block at its position, and none after them. */
  ghost predicate Exact(ns: Namespace, cidrs: seq<Cidr>) {
    && WellAnnotated(ns, cidrs)
    && forall p :: |cidrs| <= p < |Positions(ns)| ==> Positions(ns)[p] == None
  }

  /** The next cycle accepts what this one wrote. */
  lemma GrantedFits(o: Occupancy, ns: Namespace, j: nat)
    requires Room(o, j + 1)
    ensures Exact(Granted(ns, Share(o, j)), o.cidrs)
  {
    var share := Share(o, j);
    var g := Granted(ns, share);
    if o.cidrs == [] {
      GrantedNothing(ns);
    } else {
      GrantedPositions(ns, share);
      hide Positions, Granted;
      forall i | 0 <= i < |o.cidrs|
        ensures ProblemAt(Positions(g), o.cidrs, i) == None
      {
        GivenIsUnused(o, o.cidrs[i], j);
      }
    }
  }

  /** What a namespace is after a cycle: served, or as it was. */
  lemma AfterServing(env: Env, s: Snapshot, t: Snapshot, o: Occupancy, us: seq<Namespace>, served: nat, n: string) returns (j: nat)
    requires KeyedByName(s.namespaces) && ServedFrom(env, s, t, o, us, served)
    requires n in t.namespaces
    ensures j < served ==> us[j].name == n && Room(o, j + 1) && t.namespaces[n] == Granted(us[j], Share(o, j))
    ensures j >= served ==> n in s.namespaces && t.namespaces[n] == s.namespaces[n] && forall k :: 0 <= k < served ==> us[k].name != n
    ensures j >= served && HasAddresses(s.namespaces[n], env.ipam) ==> s.namespaces[n] in o.annotated
  {
    hide FreeOf, InBlocks, Served, Share, Readable, Room, Granted;
    ServedLookup(o, us, served, s.namespaces, n);
    if k: nat :| k < served && us[k].name == n {
      j := k;
    } else {
      j := served;
    }
  }

  /** A cycle leaves no annotation that the next one would refuse. */
  lemma StaysReadable(env: Env, s: Snapshot, t: Snapshot, o: Occupancy, us: seq<Namespace>, served: nat, n: string)
    requires KeyedByName(s.namespaces) && ServedFrom(env, s, t, o, us, served) && Readable(o)
    requires n in t.namespaces && HasAddresses(t.namespaces[n], env.ipam)
    ensures WellAnnotated(t.namespaces[n], o.cidrs)
  {
    hide FreeOf, InBlocks, Served, Share, Room, Granted, WellAnnotated, FreshRead;
    var j := AfterServing(env, s, t, o, us, served, n);
    if j < served {
      GrantedFits(o, us[j], j);
    }
  }

  ghost predicate AllExact(ipam: string, cidrs: seq<Cidr>, all: map<string, Namespace>) {
    forall n :: n in all && HasAddresses(all[n], ipam) ==> Exact(all[n], cidrs)
  }

  lemma CycleKeepsExact(env: Env, s: Snapshot, t: Snapshot, o: Occupancy, us: seq<Namespace>, served: nat)
    requires KeyedByName(s.namespaces) && ServedFrom(env, s, t, o, us, served)
    requires AllExact(env.ipam, o.cidrs, s.namespaces)
    ensures AllExact(env.ipam, o.cidrs, t.namespaces)
  {
    hide FreeOf, InBlocks, Served, Share, Room, Granted, Exact, FreshRead, Readable;
    forall n | n in t.namespaces && HasAddresses(t.namespaces[n], env.ipam)
      ensures Exact(t.namespaces[n], o.cidrs)
    {
      var j := AfterServing(env, s, t, o, us, served, n);
      if j < served {
        GrantedFits(o, us[j], j);
      }
    }
  }

  lemma CycleKeepsNames(env: Env, s: Snapshot, t: Snapshot, o: Occupancy, us: seq<Namespace>, served: nat)
    requires KeyedByName(s.namespaces) && ServedFrom(env, s, t, o, us, served)
    ensures KeyedByName(t.namespaces)
  {
    hide FreeOf, InBlocks, Served, Share, Readable, Room, FormatAnnotation;
    forall n | n in t.namespaces
      ensures t.namespaces[n].name == n
    {
      var _ := AfterServing(env, s, t, o, us, served, n);
    }
  }

  // ---------- one namespace, one address ----------

  /** Both namespaces hold the address for the same block. */
  ghost predicate Shares(ns: Namespace, other: Namespace, ipam: string, cidrs: seq<Cidr>, c: Cidr, a: Address) {
    && HasAddresses(ns, ipam) && HasAddresses(other, ipam)
    && Carries(Positions(ns), cidrs, c, a) && Carries(Positions(other), cidrs, c, a)
  }

  ghost predicate NoSharing(ipam: string, cidrs: seq<Cidr>, all: map<string, Namespace>) {
    forall n, m, c, a :: n in all && m in all && Shares(all[n], all[m], ipam, cidrs, c, a) ==> n == m
  }

  /** A namespace with addresses and a served one never share: what the former holds was used. */
  lemma NewIsNotOld(o: Occupancy, ns: Namespace, c: Cidr, j: nat)
    requires ns in o.annotated && c in o.cidrs && j < |FreeOf(o, c)|
    ensures !Carries(Positions(ns), o.cidrs, c, FreeAddress(o, c, j))
  {
    var a := FreeAddress(o, c, j);
    GivenIsUnused(o, c, j);
    ReadAllElements(o.annotated, o.cidrs, c, a);
    hide FreeOf, Positions, Carries, ReadAll;
    var k :| 0 <= k < |o.annotated| && o.annotated[k] == ns;
    assert !Carries(Positions(o.annotated[k]), o.cidrs, c, a);
  }

  /** Two namespaces that share after a cycle are one. */
  lemma SharersAreOne(env: Env, s: Snapshot, t: Snapshot, o: Occupancy, us: seq<Namespace>, served: nat, n: string, m: string, c: Cidr, a: Address)
    requires KeyedByName(s.namespaces) && ServedFrom(env, s, t, o, us, served)
    requires NoSharing(env.ipam, o.cidrs, s.namespaces)
    requires n in t.namespaces && m in t.namespaces && Shares(t.namespaces[n], t.namespaces[m], env.ipam, o.cidrs, c, a)
    ensures n == m
  {
    hide FreeOf, Served, Share, Readable, Positions, Granted, Carries, FreshRead;
    var i := AfterServing(env, s, t, o, us, served, n);
    var j := AfterServing(env, s, t, o, us, served, m);
    if i < served {
      GrantedCarries(o, us[i], i, c, a);
    }
    if j < served {
      GrantedCarries(o, us[j], j, c, a);
    }
    if i < served && j < served {
      if i < j {
        InOrder(o, c, i, j);
      } else if j < i {
        InOrder(o, c, j, i);
      }
    } else if i < served {
      NewIsNotOld(o, s.namespaces[m], c, i);
    } else if j < served {
      NewIsNotOld(o, s.namespaces[n], c, j);
    } else {
      assert Shares(s.namespaces[n], s.namespaces[m], env.ipam, o.cidrs, c, a);
    }
  }

  /** A cycle, whether it succeeds or stops after any number of namespaces, never makes two namespaces share. */
  lemma CycleKeepsNoSharing(env: Env, s: Snapshot, t: Snapshot, o: Occupancy, us: seq<Namespace>, served: nat)
    requires KeyedByName(s.namespaces) && ServedFrom(env, s, t, o, us, served)
    requires NoSharing(env.ipam, o.cidrs, s.namespaces)
    ensures NoSharing(env.ipam, o.cidrs, t.namespaces)
  {
    hide ServedFrom, Shares;
    forall n, m, c, a | n in t.namespaces && m in t.namespaces && Shares(t.namespaces[n], t.namespaces[m], env.ipam, o.cidrs, c, a)
      ensures n == m
    {
      SharersAreOne(env, s, t, o, us, served, n, m, c, a);
    }
  }

  /** In annotations as the program writes them, an address can only be at the position of its own block. */
  lemma CommonIsShared(ipam: string, cidrs: seq<Cidr>, ns: Namespace, other: Namespace, i: nat, j: nat, a: Address)
    requires DisjointBlocks(cidrs) && Exact(ns, cidrs) && Exact(other, cidrs)
    requires HasAddresses(ns, ipam) && HasAddresses(other, ipam)
    requires i < |Positions(ns)| && Positions(ns)[i] == Some(a)
    requires j < |Positions(other)| && Positions(other)[j] == Some(a)
    ensures exists c :: Shares(ns, other, ipam, cidrs, c, a)
  {
    hide Positions;
    var p, q := Positions(ns), Positions(other);
    assert ProblemAt(p, cidrs, i) == None && ProblemAt(q, cidrs, j) == None;
    var c, d := cidrs[if i < j then i else j], cidrs[if i < j then j else i];
    assert i == j || Disjoint(c, d);
    assert Holds(p, cidrs, i, cidrs[i], a) && Holds(q, cidrs, i, cidrs[i], a);
    assert Shares(ns, other, ipam, cidrs, cidrs[i], a);
  }

  /** So among such annotations not sharing means having no address in common at all. */
  lemma NothingInCommon(ipam: string, cidrs: seq<Cidr>, all: map<string, Namespace>, n: string, m: string, a: Address)
    requires DisjointBlocks(cidrs) && NoSharing(ipam, cidrs, all) && AllExact(ipam, cidrs, all)
    requires n in all && m in all && n != m && HasAddresses(all[n], ipam) && HasAddresses(all[m], ipam)
    ensures !(Some(a) in Positions(all[n]) && Some(a) in Positions(all[m]))
  {
    hide Positions, Shares, Exact;
    var p, q := Positions(all[n]), Positions(all[m]);
    if i, j :| 0 <= i < |p| && 0 <= j < |q| && p[i] == Some(a) && q[j] == Some(a) {
      CommonIsShared(ipam, cidrs, all[n], all[m], i, j, a);
    }
  }
}
