/** Whole runs, as the namespaces see them: cycles that serve any number of namespaces and then go on or stop, between
    changes from outside. What becomes of hostsubnets, nodes and instances in between is free. */
module NamespaceRuns {
  import opened Addresses
  import opened Text
  import opened Collections
  import opened Cluster
  import opened Loading
  import opened Namespaces
  import opened Assignment
  import opened Placement
  import opened Reconcile
  import opened Sharing

  /** A cycle; a namespace written from outside, new or changed; one deleted; one that opts out, by which it loses its
      addresses; anything else. */
  datatype Event =
    | CycleServed(env: Env, o: Occupancy, us: seq<Namespace>, served: nat)
    | Edited(ns: Namespace)
    | Deleted(name: string)
    | OptedOut(name: string)
    | Unrelated

  /** Who writes addresses into an annotation has to pick ones that are available. */
  ghost predicate Available(ns: Namespace, ipam: string, cidrs: seq<Cidr>, all: map<string, Namespace>) {
    forall m, c, a :: m in all && m != ns.name ==> !Shares(ns, all[m], ipam, cidrs, c, a) && !Shares(all[m], ns, ipam, cidrs, c, a)
  }

  ghost predicate Happens(e: Event, ipam: string, cidrs: seq<Cidr>, s: Snapshot, t: Snapshot) {
    match e
    case CycleServed(env, o, us, served) =>
      env.ipam == ipam && Blocks(env.assignments) == cidrs && ServedFrom(env, s, t, o, us, served)
    case Edited(ns) => t.namespaces == s.namespaces[ns.name := ns] && Available(ns, ipam, cidrs, s.namespaces)
    case Deleted(name) => t.namespaces == s.namespaces - {name}
    case OptedOut(name) =>
      name in s.namespaces
      && t.namespaces == s.namespaces[name := s.namespaces[name].(egressipam := None, egressips := None)]
    case Unrelated => t.namespaces == s.namespaces
  }

  ghost predicate IsRun(ipam: string, cidrs: seq<Cidr>, states: seq<Snapshot>, events: seq<Event>) {
    && |states| == |events| + 1
    && forall i :: 0 <= i < |events| ==> Happens(events[i], ipam, cidrs, states[i], states[i + 1])
  }

  /** Every cycle, however it ends, is such an event. */
  lemma CycleHappens(env: Env, s: Snapshot, t: Snapshot, o: Occupancy, us: seq<Namespace>, served: nat, inp: Input, out: Assigned,
                     r: Result<(), Error>)
    requires Outcome(env, s, t, o, us, served, inp, out, r)
    ensures Happens(CycleServed(env, o, us, served), env.ipam, Blocks(env.assignments), s, t)
  {
    hide ServedFrom, NotServed, PlaceOutcome, Readable;
  }

  // ---------- no address is shared ----------

  ghost predicate NamespacesApart(ipam: string, cidrs: seq<Cidr>, s: Snapshot) {
    KeyedByName(s.namespaces) && NoSharing(ipam, cidrs, s.namespaces)
  }

  lemma EventKeepsApart(e: Event, ipam: string, cidrs: seq<Cidr>, s: Snapshot, t: Snapshot)
    requires NamespacesApart(ipam, cidrs, s) && Happens(e, ipam, cidrs, s, t)
    ensures NamespacesApart(ipam, cidrs, t)
  {
    if e.CycleServed? {
      hide ServedFrom, NoSharing, KeyedByName;
      assert e.o.cidrs == cidrs by { ReadBlocks(e.env, s, t, e.o, e.us, e.served); }
      CycleKeepsNames(e.env, s, t, e.o, e.us, e.served);
      CycleKeepsNoSharing(e.env, s, t, e.o, e.us, e.served);
    } else {
      hide Carries, Positions;
      var all, all' := s.namespaces, t.namespaces;
      forall n, m, c, a | n in all' && m in all' && Shares(all'[n], all'[m], ipam, cidrs, c, a)
        ensures n == m
      {
        assert n in all && all'[n] == all[n] && m in all && all'[m] == all[m] ==> Shares(all[n], all[m], ipam, cidrs, c, a);
      }
    }
  }

  lemma ReadBlocks(env: Env, s: Snapshot, t: Snapshot, o: Occupancy, us: seq<Namespace>, served: nat)
    requires ServedFrom(env, s, t, o, us, served)
    ensures o.cidrs == Blocks(env.assignments)
  {
    hide Listed, InBlocks, Readable, Served, Room;
  }

  /** Safety over every run: if no two namespaces share an address at first, none ever do. */
  lemma {:induction false} NeverShared(ipam: string, cidrs: seq<Cidr>, states: seq<Snapshot>, events: seq<Event>, k: nat)
    requires IsRun(ipam, cidrs, states, events) && k < |states|
    requires NamespacesApart(ipam, cidrs, states[0])
    ensures NamespacesApart(ipam, cidrs, states[k])
  {
    hide NamespacesApart, Happens;
    if k > 0 {
      NeverShared(ipam, cidrs, states, events, k - 1);
      assert Happens(events[k - 1], ipam, cidrs, states[k - 1], states[k - 1 + 1]);
      EventKeepsApart(events[k - 1], ipam, cidrs, states[k - 1], states[k]);
    }
  }

  // ---------- no address is in common ----------

  /** Annotations written from outside have the form of those that the program writes. */
  ghost predicate WritesExact(e: Event, ipam: string, cidrs: seq<Cidr>) {
    e.Edited? && HasAddresses(e.ns, ipam) ==> Exact(e.ns, cidrs)
  }

  lemma EventKeepsExact(e: Event, ipam: string, cidrs: seq<Cidr>, s: Snapshot, t: Snapshot)
    requires KeyedByName(s.namespaces) && AllExact(ipam, cidrs, s.namespaces)
    requires Happens(e, ipam, cidrs, s, t) && WritesExact(e, ipam, cidrs)
    ensures AllExact(ipam, cidrs, t.namespaces)
  {
    hide Exact;
    if e.CycleServed? {
      hide ServedFrom, AllExact, KeyedByName;
      assert e.o.cidrs == cidrs by { ReadBlocks(e.env, s, t, e.o, e.us, e.served); }
      CycleKeepsExact(e.env, s, t, e.o, e.us, e.served);
    }
  }

  lemma {:induction false} AlwaysExact(ipam: string, cidrs: seq<Cidr>, states: seq<Snapshot>, events: seq<Event>, k: nat)
    requires IsRun(ipam, cidrs, states, events) && k < |states|
    requires NamespacesApart(ipam, cidrs, states[0])
    requires AllExact(ipam, cidrs, states[0].namespaces) && forall e :: e in events ==> WritesExact(e, ipam, cidrs)
    ensures AllExact(ipam, cidrs, states[k].namespaces)
  {
    hide NoSharing, AllExact, Happens, WritesExact;
    if k > 0 {
      AlwaysExact(ipam, cidrs, states, events, k - 1);
      NeverShared(ipam, cidrs, states, events, k - 1);
      assert events[k - 1] in events;
      assert Happens(events[k - 1], ipam, cidrs, states[k - 1], states[k - 1 + 1]);
      EventKeepsExact(events[k - 1], ipam, cidrs, states[k - 1], states[k]);
    }
  }

  /** When also the annotations written from outside are as the program writes them, no two namespaces ever have an
      address in common, at any positions, and no annotation is ever refused. */
  lemma NeverInCommon(ipam: string, cidrs: seq<Cidr>, states: seq<Snapshot>, events: seq<Event>, k: nat, n: string, m: string, a: Address)
    requires IsRun(ipam, cidrs, states, events) && k < |states| && DisjointBlocks(cidrs)
    requires NamespacesApart(ipam, cidrs, states[0])
    requires AllExact(ipam, cidrs, states[0].namespaces) && forall e :: e in events ==> WritesExact(e, ipam, cidrs)
    requires n in states[k].namespaces && HasAddresses(states[k].namespaces[n], ipam)
    requires m in states[k].namespaces && HasAddresses(states[k].namespaces[m], ipam)
    ensures WellAnnotated(states[k].namespaces[n], cidrs)
    ensures Some(a) in Positions(states[k].namespaces[n]) && Some(a) in Positions(states[k].namespaces[m]) ==> n == m
  {
    NeverShared(ipam, cidrs, states, events, k);
    AlwaysExact(ipam, cidrs, states, events, k);
    hide NoSharing, Positions, IsRun, WritesExact, FitsBlocks;
    assert Exact(states[k].namespaces[n], cidrs);
    if n != m {
      NothingInCommon(ipam, cidrs, states[k].namespaces, n, m, a);
    }
  }
}
