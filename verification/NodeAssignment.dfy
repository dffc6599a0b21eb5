/** The whole of assignIPsToNodes (ipam.go), proved against the specification in Placement. */
module NodeAssignment {
  import opened Addresses
  import opened Text
  import opened Collections
  import opened Cluster
  import opened Buckets
  import opened Scheduler
  import opened Rounds
  import opened Placement

  // ---------- the lists of steps 1 to 5 ----------

  lemma OneBlock(cidrs: seq<Cidr>, c: Cidr, d: Cidr, a: Address)
    requires DisjointBlocks(cidrs) && c in cidrs && d in cidrs
    requires c.Contains(a) && d.Contains(a)
    ensures c == d
  {
    var i :| 0 <= i < |cidrs| && cidrs[i] == c;
    var j :| 0 <= j < |cidrs| && cidrs[j] == d;
    assert forall p, q :: 0 <= p < q < |cidrs| && cidrs[p].Contains(a) ==> !cidrs[q].Contains(a) by {
      assert forall p, q :: 0 <= p < q < |cidrs| ==> Disjoint(cidrs[p], cidrs[q]);
    }
  }

  /** `base` has exactly the kept addresses. */
  ghost predicate KeptOn(inp: Input, base: Assigned) {
    && (forall n, a :: a in Get(base, n) <==> Kept(inp, n, a))
    && (forall n :: ToSet(Get(base, n)) == KeptSet(inp, n) && Load(base, n) == |KeptSet(inp, n)|)
    && (forall n :: n in base ==> base[n] != [])
  }

  /** What steps 1 to 4 computed. */
  ghost predicate ByBlock(inp: Input, toPlace: map<Cidr, seq<Address>>, kept: map<Cidr, seq<Address>>) {
    && toPlace.Keys == kept.Keys == ToSet(inp.cidrs)
    && (forall c :: c in toPlace ==> NoDup(toPlace[c]) && NoDup(kept[c]))
    && (forall c, a :: c in toPlace ==> (a in toPlace[c] <==> ToPlace(inp, c, a)))
    && (forall c, a :: c in kept ==> (a in kept[c] <==> c.Contains(a) && Requested(inp, a) && IsCarried(inp, a)))
  }

  method SortByBlock(inp: Input) returns (toPlace: map<Cidr, seq<Address>>, kept: map<Cidr, seq<Address>>)
    ensures ByBlock(inp, toPlace, kept)
  {
    var onNodes := CarriedByBlock(inp.cidrs, inp.carried);
    var wanted := WantedByBlock(inp.cidrs, inp.rows);
    toPlace, kept := DiffAndKeep(wanted, onNodes);
    forall c, a: Address | c in toPlace
      ensures a in toPlace[c] <==> ToPlace(inp, c, a)
      ensures a in kept[c] <==> c.Contains(a) && Requested(inp, a) && IsCarried(inp, a)
    {
      assert a in toPlace[c] <==> a in ToSet(toPlace[c]);
      assert a in kept[c] <==> a in ToSet(kept[c]);
    }
  }

  lemma KeptList(inp: Input, toPlace: map<Cidr, seq<Address>>, kept: map<Cidr, seq<Address>>, a: Address)
    requires ByBlock(inp, toPlace, kept)
    ensures a in ListedFor(kept, kept.Keys) <==> IsCarried(inp, a) && Wanted(inp, a)
  {
    if a in ListedFor(kept, kept.Keys) {
      var c :| c in kept && a in kept[c];
      assert c in inp.cidrs && c.Contains(a);
    }
    if IsCarried(inp, a) && Wanted(inp, a) {
      var c :| c in inp.cidrs && c.Contains(a);
      assert c in kept && a in kept[c];
    }
  }

  lemma KeptMeansKept(inp: Input, toPlace: map<Cidr, seq<Address>>, kept: map<Cidr, seq<Address>>, base: Assigned)
    requires ByBlock(inp, toPlace, kept) && KeptExactly(base, inp.carried, ListedFor(kept, kept.Keys))
    ensures KeptOn(inp, base)
  {
    hide ByBlock;
    forall n, a: Address
      ensures a in Get(base, n) <==> Kept(inp, n, a)
    {
      KeptList(inp, toPlace, kept, a);
      if a in Get(inp.carried, n) {
        assert n in inp.carried && a in inp.carried[n];
      }
    }
    forall n
      ensures ToSet(Get(base, n)) == KeptSet(inp, n) && Load(base, n) == |KeptSet(inp, n)|
    {
      assert forall a :: a in ToSet(Get(base, n)) <==> a in KeptSet(inp, n);
      NoDupCardinality(Get(base, n));
    }
  }

  lemma ListsDisjoint(inp: Input, toPlace: map<Cidr, seq<Address>>, kept: map<Cidr, seq<Address>>)
    requires WellFormed(inp) && ByBlock(inp, toPlace, kept)
    ensures DisjointLists(toPlace) && DisjointLists(kept)
  {
    forall d, e, a | d in toPlace && e in toPlace && ((a in toPlace[d] && a in toPlace[e]) || (a in kept[d] && a in kept[e]))
      ensures d == e
    {
      OneBlock(inp.cidrs, d, e, a);
    }
  }

  // ---------- step 7 ----------

  ghost function NodesByBlock(inp: Input): map<Cidr, set<Node>> {
    map c | c in inp.cidrs :: ReadyIn(inp, c)
  }

  method BuildQueues(inp: Input, base: Assigned) returns (queues: Queues)
    requires WellFormed(inp)
    ensures queues.Keys == inp.nodesByCidr.Keys
    ensures AllQueues(queues, NodesByBlock(inp), base)
  {
    queues := map[];
    var todo := inp.nodesByCidr.Keys;
    while todo != {}
      invariant todo <= inp.nodesByCidr.Keys && queues.Keys == inp.nodesByCidr.Keys - todo
      invariant forall c :: c in queues ==> Queue(queues[c], ReadyIn(inp, c), base)
    {
      var c :| c in todo;
      var b := BuildQueue(inp.nodesByCidr[c], inp.ready, base);
      assert Get(inp.nodesByCidr, c) == inp.nodesByCidr[c];
      queues := queues[c := b];
      todo := todo - {c};
    }
    forall c | c in inp.cidrs
      ensures Queue(QueueOf(queues, c), ReadyIn(inp, c), base)
    {
      if c !in queues {
        assert ReadyIn(inp, c) == {};
      }
    }
  }

  lemma ReadyToPlace(inp: Input, toPlace: map<Cidr, seq<Address>>, kept: map<Cidr, seq<Address>>, base: Assigned, queues: Queues)
    requires WellFormed(inp) && ByBlock(inp, toPlace, kept) && KeptExactly(base, inp.carried, ListedFor(kept, kept.Keys))
    requires AllQueues(queues, NodesByBlock(inp), base)
    ensures Placeable(queues, base, toPlace, NodesByBlock(inp))
  {
    ListsDisjoint(inp, toPlace, kept);
    KeptMeansKept(inp, toPlace, kept, base);
    forall d, n, a | d in toPlace && a in toPlace[d]
      ensures a !in Get(base, n)
    {
      NotOnBase(inp, base, d, a, n);
    }
  }

  // ---------- the final loops ----------

  /** Makes sure that the nodes of the empty buckets and the nodes that are not ready are in the result. */
  method FillNodes(queues: Queues, m: Assigned, notReady: set<Node>) returns (out: Assigned)
    requires forall c, n :: c in queues && n in Get(queues[c], 0) ==> Get(m, n) == []
    requires forall n :: n in notReady ==> Get(m, n) == []
    ensures forall n :: Get(out, n) == Get(m, n)
    ensures forall n :: n in out <==> n in m || (exists c :: c in queues && n in Get(queues[c], 0)) || n in notReady
  {
    out := m;
    var todo := queues.Keys;
    while todo != {}
      invariant todo <= queues.Keys
      invariant forall n :: Get(out, n) == Get(m, n)
      invariant forall n :: n in out <==> n in m || exists c :: c in queues.Keys - todo && n in Get(queues[c], 0)
    {
      var c :| c in todo;
      var zero := Get(queues[c], 0);
      ghost var before := out;
      for i := 0 to |zero|
        invariant forall n :: Get(out, n) == Get(m, n)
        invariant forall n :: n in out <==> n in before || n in zero[..i]
      {
        assert zero[i] in Get(queues[c], 0);
        assert zero[..i + 1] == zero[..i] + [zero[i]];
        out := out[zero[i] := []];
      }
      assert zero[..|zero|] == zero;
      todo := todo - {c};
    }
    out := out + map n | n in notReady :: [];
  }

  // ---------- the specification is met ----------

  ghost predicate ToPlaceSomewhere(inp: Input, a: Address) {
    exists c :: ToPlace(inp, c, a)
  }

  /** The result of the loops, before the nodes without addresses are filled in. */
  ghost predicate Distributed(inp: Input, base: Assigned, m: Assigned, owner: map<Address, Node>) {
    && KeptOn(inp, base)
    && Grown(base, m, owner)
    && (forall a :: a in owner <==> ToPlaceSomewhere(inp, a))
    && (forall c, a :: ToPlace(inp, c, a) && a in owner ==> owner[a] in ReadyIn(inp, c))
    && (forall c :: c in inp.cidrs ==> Level(ReadyIn(inp, c), base, m))
  }

  lemma DistributedIsPlacement(inp: Input, base: Assigned, m: Assigned, owner: map<Address, Node>)
    requires WellFormed(inp) && Distributed(inp, base, m, owner)
    ensures OnlyWanted(inp, m) && KeepsAll(inp, m) && PlacesAll(inp, m) && BalancedIn(inp, m)
  {
    forall n, a | a in Get(m, n)
      ensures Kept(inp, n, a) || exists c :: n in ReadyIn(inp, c) && ToPlace(inp, c, a)
    {
      if a !in Get(base, n) {
        assert ToPlaceSomewhere(inp, a);
        var c :| ToPlace(inp, c, a);
        assert n in ReadyIn(inp, c);
      }
    }
    forall c, a | ToPlace(inp, c, a)
      ensures exists n :: n in ReadyIn(inp, c) && a in Get(m, n)
    {
      assert ToPlaceSomewhere(inp, a);
      assert owner[a] in ReadyIn(inp, c) && a in Get(m, owner[a]);
    }
    forall n, a | Kept(inp, n, a)
      ensures a in Get(m, n)
    {
      assert a in Get(base, n);
    }
    LevelIsBalanced(inp, base, m, owner);
  }

  lemma LevelIsBalanced(inp: Input, base: Assigned, m: Assigned, owner: map<Address, Node>)
    requires WellFormed(inp) && Distributed(inp, base, m, owner)
    ensures BalancedIn(inp, m)
  {
    hide Grown;
    forall c, x, y | x in ReadyIn(inp, c) && y in ReadyIn(inp, c) && Load(m, x) > |KeptSet(inp, x)|
      ensures Load(m, x) <= Load(m, y) + 1
    {
      assert c in inp.cidrs;
      assert Load(m, x) > Load(base, x);
    }
  }

  lemma DistributedOnce(inp: Input, base: Assigned, m: Assigned, owner: map<Address, Node>)
    requires WellFormed(inp) && Distributed(inp, base, m, owner)
    ensures OnceUnlessKept(inp, m)
  {
    forall n, x, a | a in Get(m, n) && a in Get(m, x) && n != x
      ensures Kept(inp, n, a) && Kept(inp, x, a)
    {
      if a in owner {
        assert ToPlaceSomewhere(inp, a);
        var c :| ToPlace(inp, c, a);
        NotOnBase(inp, base, c, a, n);
        NotOnBase(inp, base, c, a, x);
      }
    }
  }

  lemma NotOnBase(inp: Input, base: Assigned, c: Cidr, a: Address, n: Node)
    requires forall x, b :: b in Get(base, x) <==> Kept(inp, x, b)
    requires ToPlace(inp, c, a)
    ensures a !in Get(base, n)
  {
    assert forall x :: x in inp.carried ==> a !in inp.carried[x];
  }

  /** The nodes of a queue are the ready nodes of its block; those without addresses are in bucket 0. */
  lemma QueueNodes(inp: Input, queues: Queues, m: Assigned, c: Cidr, n: Node)
    requires AllQueues(queues, NodesByBlock(inp), m) && c in inp.cidrs
    ensures c in queues && n in Get(queues[c], 0) ==> n in ReadyIn(inp, c) && Get(m, n) == []
    ensures n in ReadyIn(inp, c) && n !in m ==> c in queues && n in Get(queues[c], 0)
  {
    assert c in NodesByBlock(inp);
    assert Queue(QueueOf(queues, c), ReadyIn(inp, c), m);
    if n in ReadyIn(inp, c) {
      assert n in Get(QueueOf(queues, c), Load(m, n));
    }
  }

  /** A node with a list in the result of the loops keeps an address or is a ready node of a block. */
  lemma NodesServed(inp: Input, base: Assigned, m: Assigned, owner: map<Address, Node>, n: Node)
    requires Distributed(inp, base, m, owner) && n in m
    ensures KeptSet(inp, n) != {} || exists c :: n in ReadyIn(inp, c)
  {
    if n in base {
      assert base[n][0] in ToSet(Get(base, n));
    } else {
      var a := m[n][0];
      assert a in Get(m, n);
      assert a in owner && owner[a] == n;
      assert ToPlaceSomewhere(inp, a);
      var c :| ToPlace(inp, c, a);
      assert n in ReadyIn(inp, c);
    }
  }

  lemma KeepersServed(inp: Input, base: Assigned, m: Assigned, owner: map<Address, Node>, n: Node)
    requires Distributed(inp, base, m, owner) && KeptSet(inp, n) != {}
    ensures n in m
  {
    assert Load(base, n) > 0;
    assert n in base;
  }

  lemma NodesFilled(inp: Input, base: Assigned, m: Assigned, owner: map<Address, Node>, queues: Queues, out: Assigned)
    requires WellFormed(inp) && Distributed(inp, base, m, owner) && AllQueues(queues, NodesByBlock(inp), m)
    requires queues.Keys <= ToSet(inp.cidrs)
    requires forall n :: Get(out, n) == Get(m, n)
    requires forall n :: n in out <==> n in m || (exists c :: c in queues && n in Get(queues[c], 0)) || n in inp.selected - inp.ready
    requires forall n :: n in inp.selected - inp.ready ==> Get(m, n) == []
    ensures NodesOf(inp, out)
  {
    hide Distributed, AllQueues;
    forall n
      ensures n in out <==> (exists c :: n in ReadyIn(inp, c)) || KeptSet(inp, n) != {} || n in inp.selected - inp.ready
    {
      if n in m {
        NodesServed(inp, base, m, owner, n);
      } else if c :| c in queues && n in Get(queues[c], 0) {
        QueueNodes(inp, queues, m, c, n);
      }
      if KeptSet(inp, n) != {} {
        KeepersServed(inp, base, m, owner, n);
      } else if c :| n in ReadyIn(inp, c) {
        QueueNodes(inp, queues, m, c, n);
      }
    }
  }

  lemma OnReadyNode(inp: Input, base: Assigned, m: Assigned, owner: map<Address, Node>, n: Node, a: Address)
    requires WellFormed(inp) && Distributed(inp, base, m, owner) && a in Get(m, n)
    ensures n in inp.ready
  {
    if a in owner && owner[a] == n {
      assert ToPlaceSomewhere(inp, a);
      var c :| ToPlace(inp, c, a);
      assert n in ReadyIn(inp, c);
    } else {
      assert Kept(inp, n, a);
      assert n in inp.carried;
    }
  }

  lemma NotReadyIsEmpty(inp: Input, base: Assigned, m: Assigned, owner: map<Address, Node>, n: Node)
    requires WellFormed(inp) && Distributed(inp, base, m, owner) && n !in inp.ready
    ensures Get(m, n) == []
  {
    if Get(m, n) != [] {
      OnReadyNode(inp, base, m, owner, n, Get(m, n)[0]);
    }
  }

  lemma RoundsDistribute(inp: Input, toPlace: map<Cidr, seq<Address>>, kept: map<Cidr, seq<Address>>,
                         base: Assigned, m: Assigned, queues: Queues, owner: map<Address, Node>)
    requires WellFormed(inp) && ByBlock(inp, toPlace, kept) && KeptExactly(base, inp.carried, ListedFor(kept, kept.Keys))
    requires toPlace.Keys == NodesByBlock(inp).Keys
    requires RoundState(queues, base, toPlace, NodesByBlock(inp), toPlace.Keys, m, owner)
    ensures Distributed(inp, base, m, owner)
  {
    hide KeptOn, KeptExactly, ByBlock, Grown, AllQueues, NoneStuck, OwnedInBlock, WellFormed, Level, ReadyIn, ToPlace, ToPlaceSomewhere;
    KeptMeansKept(inp, toPlace, kept, base);
    OwnersToPlace(inp, toPlace, kept, base, m, owner);
    LevelEverywhere(inp, toPlace, base, m, owner);
  }

  lemma LevelEverywhere(inp: Input, toPlace: map<Cidr, seq<Address>>, base: Assigned, m: Assigned, owner: map<Address, Node>)
    requires toPlace.Keys == NodesByBlock(inp).Keys
    requires Placed(toPlace, NodesByBlock(inp), toPlace.Keys, base, m, owner)
    ensures forall c :: c in inp.cidrs ==> Level(ReadyIn(inp, c), base, m)
  {
    hide Grown, OwnedInBlock, Level, ReadyIn;
    forall c | c in inp.cidrs
      ensures Level(ReadyIn(inp, c), base, m)
    {
      assert c in NodesByBlock(inp) && NodesByBlock(inp)[c] == ReadyIn(inp, c);
    }
  }

  lemma OwnersToPlace(inp: Input, toPlace: map<Cidr, seq<Address>>, kept: map<Cidr, seq<Address>>,
                      base: Assigned, m: Assigned, owner: map<Address, Node>)
    requires ByBlock(inp, toPlace, kept)
    requires Placed(toPlace, NodesByBlock(inp), toPlace.Keys, base, m, owner)
    ensures forall a :: a in owner <==> ToPlaceSomewhere(inp, a)
    ensures forall c, a :: ToPlace(inp, c, a) && a in owner ==> owner[a] in ReadyIn(inp, c)
  {
    hide Grown;
    forall a: Address
      ensures a in owner <==> ToPlaceSomewhere(inp, a)
    {
      if ToPlaceSomewhere(inp, a) {
        var c :| ToPlace(inp, c, a);
        assert c in toPlace && a in toPlace[c];
      }
      if a in owner {
        var c :| c in toPlace && a in toPlace[c];
        assert ToPlace(inp, c, a);
      }
    }
    forall c, a | ToPlace(inp, c, a) && a in owner
      ensures owner[a] in ReadyIn(inp, c)
    {
      assert c in toPlace && a in toPlace[c];
    }
  }

  /** Fails exactly when some block has an address to place and no ready node; otherwise meets the specification. */
  method AssignIPsToNodes(inp: Input) returns (r: Result<Assigned, Error>)
    requires WellFormed(inp)
    ensures r.Success? <==> forall c :: !Stuck(inp, c)
    ensures r.Failure? ==> r.error.NoReadyNode? && Stuck(inp, r.error.c)
    ensures r.Success? ==> IsPlacement(inp, r.value)
  {
    var toPlace, kept := SortByBlock(inp);
    ListsDisjoint(inp, toPlace, kept);
    var base := KeepOnNodes(kept, inp.carried);
    var queues := BuildQueues(inp, base);
    ReadyToPlace(inp, toPlace, kept, base, queues);
    var stuck, m, queues', owner := PlaceBlocks(queues, base, toPlace, NodesByBlock(inp));
    StuckOrNot(inp, toPlace, kept);
    if stuck.Some? {
      return Failure(NoReadyNode(stuck.value));
    }
    RoundsDistribute(inp, toPlace, kept, base, m, queues', owner);
    assert queues'.Keys <= ToSet(inp.cidrs);
    var out := Finish(inp, queues', m, base, owner);
    return Success(out);
  }

  lemma StuckOrNot(inp: Input, toPlace: map<Cidr, seq<Address>>, kept: map<Cidr, seq<Address>>)
    requires ByBlock(inp, toPlace, kept)
    ensures forall c :: c in toPlace ==> (Stuck(inp, c) <==> toPlace[c] != [] && ReadyIn(inp, c) == {})
    ensures NoneStuck(toPlace, NodesByBlock(inp), toPlace.Keys) <==> forall c :: !Stuck(inp, c)
  {
    forall c
      ensures Stuck(inp, c) <==> c in toPlace && toPlace[c] != [] && ReadyIn(inp, c) == {}
    {
      if c in toPlace && toPlace[c] != [] {
        assert ToPlace(inp, c, toPlace[c][0]) by { assert toPlace[c][0] in toPlace[c]; }
      }
      if Stuck(inp, c) {
        var a :| ToPlace(inp, c, a);
        assert c in toPlace && a in toPlace[c];
      }
    }
  }

  method Finish(inp: Input, queues: Queues, m: Assigned, ghost base: Assigned, ghost owner: map<Address, Node>)
    returns (out: Assigned)
    requires WellFormed(inp) && Distributed(inp, base, m, owner)
    requires AllQueues(queues, NodesByBlock(inp), m) && queues.Keys <= ToSet(inp.cidrs)
    ensures IsPlacement(inp, out)
  {
    hide Distributed, AllQueues;
    forall n | n in inp.selected - inp.ready
      ensures Get(m, n) == []
    {
      NotReadyIsEmpty(inp, base, m, owner, n);
    }
    forall c, n | c in queues && n in Get(queues[c], 0)
      ensures Get(m, n) == []
    {
      QueueNodes(inp, queues, m, c, n);
    }
    out := FillNodes(queues, m, inp.selected - inp.ready);
    NodesFilled(inp, base, m, owner, queues, out);
    DistributedIsPlacement(inp, base, m, owner);
    DistributedOnce(inp, base, m, owner);
    SameLists(inp, m, out);
  }

  lemma SameLists(inp: Input, m: Assigned, out: Assigned)
    requires forall n :: Get(out, n) == Get(m, n)
    requires OnlyWanted(inp, m) && KeepsAll(inp, m) && PlacesAll(inp, m) && BalancedIn(inp, m) && OnceUnlessKept(inp, m)
    ensures OnlyWanted(inp, out) && KeepsAll(inp, out) && PlacesAll(inp, out) && BalancedIn(inp, out) && OnceUnlessKept(inp, out)
  {
    hide Kept, ToPlace, ReadyIn, KeptSet, Get;
    assert OnlyWanted(inp, out) by { hide KeepsAll, PlacesAll, BalancedIn, OnceUnlessKept; }
    assert KeepsAll(inp, out) by { hide OnlyWanted, PlacesAll, BalancedIn, OnceUnlessKept; }
    assert OnceUnlessKept(inp, out) by { hide OnlyWanted, KeepsAll, PlacesAll, BalancedIn; }
    assert BalancedIn(inp, out) by {
      hide OnlyWanted, KeepsAll, PlacesAll, OnceUnlessKept;
      assert forall n :: Load(out, n) == Load(m, n);
    }
    SamePlaced(inp, m, out);
  }

  lemma SamePlaced(inp: Input, m: Assigned, out: Assigned)
    requires forall n :: Get(out, n) == Get(m, n)
    requires PlacesAll(inp, m)
    ensures PlacesAll(inp, out)
  {
    hide ToPlace, ReadyIn, Get;
    forall c, a | ToPlace(inp, c, a)
      ensures exists n :: n in ReadyIn(inp, c) && a in Get(out, n)
    {
      var n :| n in ReadyIn(inp, c) && a in Get(m, n);
      assert a in Get(out, n);
    }
  }
}
