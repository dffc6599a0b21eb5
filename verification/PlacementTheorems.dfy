/** What every placement has, however the maps and sets of the program were iterated. */
module PlacementTheorems {
  import opened Addresses
  import opened Text
  import opened Collections
  import opened Cluster
  import opened Placement
  import B = Balance

  // ---------- exactly once ----------

  /** The addresses on the nodes are the wanted ones. */
  lemma ExactlyTheWanted(inp: Input, out: Assigned, a: Address)
    requires WellFormed(inp) && IsPlacement(inp, out)
    ensures Wanted(inp, a) <==> exists n :: a in Get(out, n)
  {
    if Wanted(inp, a) {
      var c :| c in inp.cidrs && c.Contains(a);
      if IsCarried(inp, a) {
        var n :| n in inp.carried && a in inp.carried[n];
        assert Kept(inp, n, a);
      } else {
        assert ToPlace(inp, c, a);
      }
    }
    if n :| a in Get(out, n) {
      if !Kept(inp, n, a) {
        var c :| n in ReadyIn(inp, c) && ToPlace(inp, c, a);
        assert c in inp.cidrs && c.Contains(a);
      }
    }
  }

  /** An address on a node is there once, and the node is ready. One that was carried is on the nodes that carried it:
      it has not moved. Any other is on one node, of the block it belongs to. */
  lemma WhereItIs(inp: Input, out: Assigned, n: Node, a: Address)
    requires WellFormed(inp) && IsPlacement(inp, out) && a in Get(out, n)
    ensures n in inp.ready
    ensures multiset(Get(out, n))[a] == 1
    ensures IsCarried(inp, a) ==> forall x :: a in Get(out, x) <==> a in Get(inp.carried, x)
    ensures !IsCarried(inp, a) ==> forall x :: a in Get(out, x) <==> x == n
    ensures !IsCarried(inp, a) ==> exists c :: c in inp.cidrs && c.Contains(a) && n in Get(inp.nodesByCidr, c)
  {
    if Kept(inp, n, a) {
      assert n in inp.carried;
      assert forall x :: a in Get(inp.carried, x) ==> Kept(inp, x, a);
    } else {
      var c :| n in ReadyIn(inp, c) && ToPlace(inp, c, a);
      assert forall x :: a in Get(inp.carried, x) ==> IsCarried(inp, a);
    }
    CountNoDup(Get(out, n), a);
    assert a in multiset(Get(out, n));
  }

  /** Every address is on one node only exactly when none that is wanted was carried by two: the scheduler makes no
      duplicate and repairs none. */
  lemma OnceIff(inp: Input, out: Assigned)
    requires IsPlacement(inp, out)
    ensures OnceEach(out) <==> KeptOnce(inp)
  {
    hide Kept;
    if OnceEach(out) {
      forall n, m, a | Kept(inp, n, a) && Kept(inp, m, a)
        ensures n == m
      {
        assert a in Get(out, n) && a in Get(out, m);
      }
    }
  }

  // ---------- loads ----------

  ghost function Loads(ns: seq<Node>, m: Assigned): seq<nat> {
    seq(|ns|, i requires 0 <= i < |ns| => Load(m, ns[i]))
  }

  ghost function KeptLoads(ns: seq<Node>, inp: Input): seq<nat> {
    seq(|ns|, i requires 0 <= i < |ns| => |KeptSet(inp, ns[i])|)
  }

  /** What a node has besides what it keeps. */
  ghost function NewOn(inp: Input, m: Assigned, n: Node): set<Address> {
    ToSet(Get(m, n)) - KeptSet(inp, n)
  }

  ghost function NewOnAny(inp: Input, m: Assigned, ns: seq<Node>): set<Address> {
    set n, a | n in ns && a in NewOn(inp, m, n) :: a
  }

  /** Any way to place the same addresses under the same rules, balanced or not. */
  ghost predicate Alternative(inp: Input, alt: Assigned) {
    OnlyWanted(inp, alt) && KeepsAll(inp, alt) && PlacesAll(inp, alt) && OnceUnlessKept(inp, alt)
  }

  lemma LoadOf(inp: Input, m: Assigned, n: Node)
    requires Alternative(inp, m)
    ensures Load(m, n) == |KeptSet(inp, n)| + |NewOn(inp, m, n)|
  {
    assert forall a :: a in KeptSet(inp, n) ==> Kept(inp, n, a);
    assert ToSet(Get(m, n)) == KeptSet(inp, n) + NewOn(inp, m, n);
    NoDupCardinality(Get(m, n));
  }

  lemma NewSplit(inp: Input, m: Assigned, ns: seq<Node>)
    requires ns != [] && NoDup(ns) && Alternative(inp, m)
    ensures NewOnAny(inp, m, ns) == NewOn(inp, m, ns[0]) + NewOnAny(inp, m, ns[1..])
    ensures NewOn(inp, m, ns[0]) !! NewOnAny(inp, m, ns[1..])
  {
    assert forall n :: n in ns <==> n == ns[0] || n in ns[1..];
    forall a | a in NewOn(inp, m, ns[0])
      ensures a !in NewOnAny(inp, m, ns[1..])
    {
      assert !Kept(inp, ns[0], a);
      assert forall n :: n in ns[1..] ==> n != ns[0];
    }
  }

  /** The loads add up to what is kept and what is new. */
  lemma {:induction false} SumOfLoads(inp: Input, m: Assigned, ns: seq<Node>)
    requires NoDup(ns) && Alternative(inp, m)
    ensures B.Sum(Loads(ns, m)) == B.Sum(KeptLoads(ns, inp)) + |NewOnAny(inp, m, ns)|
  {
    if ns != [] {
      SumOfLoads(inp, m, ns[1..]);
      LoadOf(inp, m, ns[0]);
      NewSplit(inp, m, ns);
      hide NewOnAny, NewOn, Alternative, KeptSet;
      assert Loads(ns, m)[1..] == Loads(ns[1..], m);
      assert KeptLoads(ns, inp)[1..] == KeptLoads(ns[1..], inp);
    }
  }

  /** `ns` lists the ready nodes of block `c`. */
  ghost predicate ListsReady(inp: Input, c: Cidr, ns: seq<Node>) {
    NoDup(ns) && ToSet(ns) == ReadyIn(inp, c)
  }

  lemma NewIsToPlace(inp: Input, alt: Assigned, c: Cidr, n: Node, a: Address)
    requires WellFormed(inp) && OnlyWanted(inp, alt) && n in ReadyIn(inp, c) && a in NewOn(inp, alt, n)
    ensures ToPlace(inp, c, a)
  {
    hide ToPlace, Wanted;
    assert !Kept(inp, n, a);
    var d :| n in ReadyIn(inp, d) && ToPlace(inp, d, a);
    assert n in Get(inp.nodesByCidr, c) && n in Get(inp.nodesByCidr, d);
  }

  lemma ToPlaceIsNew(inp: Input, alt: Assigned, c: Cidr, a: Address) returns (n: Node)
    requires PlacesAll(inp, alt) && ToPlace(inp, c, a)
    ensures n in ReadyIn(inp, c) && a in NewOn(inp, alt, n)
  {
    n :| n in ReadyIn(inp, c) && a in Get(alt, n);
    assert a in Get(inp.carried, n) ==> IsCarried(inp, a);
  }

  /** What is new on the nodes of a block is what the block has to place. */
  lemma BlockAddresses(inp: Input, alt: Assigned, c: Cidr, ns: seq<Node>, a: Address)
    requires WellFormed(inp) && Alternative(inp, alt) && ListsReady(inp, c, ns)
    ensures a in NewOnAny(inp, alt, ns) <==> ToPlace(inp, c, a)
  {
    assert forall n :: n in ns <==> n in ReadyIn(inp, c);
    hide WellFormed, ToPlace, NewOn, ReadyIn;
    if n :| n in ns && a in NewOn(inp, alt, n) {
      NewIsToPlace(inp, alt, c, n, a);
    }
    if ToPlace(inp, c, a) {
      var _ := ToPlaceIsNew(inp, alt, c, a);
    }
  }

  lemma SameTotal(inp: Input, m: Assigned, alt: Assigned, c: Cidr, ns: seq<Node>)
    requires WellFormed(inp) && Alternative(inp, m) && Alternative(inp, alt) && ListsReady(inp, c, ns)
    ensures B.Sum(Loads(ns, m)) == B.Sum(Loads(ns, alt))
  {
    SumOfLoads(inp, m, ns);
    SumOfLoads(inp, alt, ns);
    forall a
      ensures a in NewOnAny(inp, m, ns) <==> a in NewOnAny(inp, alt, ns)
    {
      BlockAddresses(inp, m, c, ns, a);
      BlockAddresses(inp, alt, c, ns, a);
    }
    assert NewOnAny(inp, m, ns) == NewOnAny(inp, alt, ns);
  }

  lemma KeptBelow(inp: Input, alt: Assigned, ns: seq<Node>)
    requires Alternative(inp, alt)
    ensures B.Above(KeptLoads(ns, inp), Loads(ns, alt))
  {
    forall i | 0 <= i < |ns|
      ensures KeptLoads(ns, inp)[i] <= Loads(ns, alt)[i]
    {
      assert KeptSet(inp, ns[i]) <= ToSet(Get(alt, ns[i])) by {
        assert forall a :: a in KeptSet(inp, ns[i]) ==> Kept(inp, ns[i], a);
      }
      SubsetCardinality(KeptSet(inp, ns[i]), ToSet(Get(alt, ns[i])));
      NoDupCardinality(Get(alt, ns[i]));
    }
  }

  lemma PlacementBalanced(inp: Input, out: Assigned, c: Cidr, ns: seq<Node>)
    requires IsPlacement(inp, out) && ListsReady(inp, c, ns)
    ensures B.Balanced(KeptLoads(ns, inp), Loads(ns, out))
  {
    KeptBelow(inp, out, ns);
    forall i, j | 0 <= i < |ns| && 0 <= j < |ns| && Loads(ns, out)[i] > KeptLoads(ns, inp)[i]
      ensures Loads(ns, out)[i] <= Loads(ns, out)[j] + 1
    {
      assert ns[i] in ToSet(ns) && ns[j] in ToSet(ns);
    }
  }

  /** No way to place the same addresses has a smaller maximum load on the nodes of a block; indeed none has less
      load above any level `t`. */
  lemma MinMaxOptimal(inp: Input, out: Assigned, alt: Assigned, c: Cidr, ns: seq<Node>, t: int)
    requires WellFormed(inp) && IsPlacement(inp, out) && Alternative(inp, alt) && ListsReady(inp, c, ns)
    ensures B.Over(Loads(ns, out), t) <= B.Over(Loads(ns, alt), t)
    ensures ns != [] ==> B.Max(Loads(ns, out)) <= B.Max(Loads(ns, alt))
  {
    PlacementBalanced(inp, out, c, ns);
    KeptBelow(inp, alt, ns);
    SameTotal(inp, out, alt, c, ns);
    B.LeastOver(KeptLoads(ns, inp), Loads(ns, out), Loads(ns, alt), t);
    if ns != [] {
      assert Loads(ns, out) != [];
      B.MinMax(KeptLoads(ns, inp), Loads(ns, out), Loads(ns, alt));
    }
  }

  // ---------- iteration order ----------

  /** The same cluster read in another order: lists permuted, maps and sets the same. */
  ghost predicate SameProblem(inp: Input, inp': Input) {
    && ToSet(inp.cidrs) == ToSet(inp'.cidrs)
    && inp.ready == inp'.ready && inp.selected == inp'.selected
    && (forall n, a :: a in Get(inp.carried, n) <==> a in Get(inp'.carried, n))
    && (forall a :: Requested(inp, a) <==> Requested(inp', a))
    && (forall c, n :: n in Get(inp.nodesByCidr, c) <==> n in Get(inp'.nodesByCidr, c))
  }

  lemma CarriedAlike(inp: Input, inp': Input, a: Address)
    requires forall n :: a in Get(inp.carried, n) <==> a in Get(inp'.carried, n)
    ensures IsCarried(inp, a) ==> IsCarried(inp', a)
  {
    if IsCarried(inp, a) {
      var n :| n in inp.carried && a in inp.carried[n];
      assert a in Get(inp.carried, n);
      assert n in inp'.carried && a in inp'.carried[n];
    }
  }

  lemma SameFacts(inp: Input, inp': Input)
    requires SameProblem(inp, inp')
    ensures forall c :: ReadyIn(inp, c) == ReadyIn(inp', c)
    ensures forall n, a :: Kept(inp, n, a) <==> Kept(inp', n, a)
    ensures forall c, a :: ToPlace(inp, c, a) <==> ToPlace(inp', c, a)
    ensures forall n :: KeptSet(inp, n) == KeptSet(inp', n)
  {
    forall c
      ensures c in inp.cidrs <==> c in inp'.cidrs
      ensures ReadyIn(inp, c) == ReadyIn(inp', c)
    {
      assert c in ToSet(inp.cidrs) <==> c in ToSet(inp'.cidrs);
    }
    forall a: Address
      ensures IsCarried(inp, a) <==> IsCarried(inp', a)
    {
      CarriedAlike(inp, inp', a);
      CarriedAlike(inp', inp, a);
    }
    assert forall n, a :: Kept(inp, n, a) <==> Kept(inp', n, a);
    forall n
      ensures KeptSet(inp, n) == KeptSet(inp', n)
    {
      assert forall a :: a in KeptSet(inp, n) <==> Kept(inp, n, a);
      assert forall a :: a in KeptSet(inp', n) <==> Kept(inp', n, a);
    }
  }

  lemma OnceAlike(inp: Input, inp': Input, out: Assigned)
    requires forall n, a :: Kept(inp, n, a) <==> Kept(inp', n, a)
    requires OnceUnlessKept(inp', out)
    ensures OnceUnlessKept(inp, out)
  {
    hide Kept;
  }

  lemma SamePlacements(inp: Input, inp': Input, out: Assigned)
    requires SameProblem(inp, inp') && IsPlacement(inp', out)
    ensures IsPlacement(inp, out)
  {
    SameFacts(inp, inp');
    OnceAlike(inp, inp', out);
    hide SameProblem, Kept, ToPlace, KeptSet, ReadyIn, OnceUnlessKept;
    forall n, a | a in Get(out, n)
      ensures Kept(inp, n, a) || exists c :: n in ReadyIn(inp, c) && ToPlace(inp, c, a)
    {
      if !Kept(inp', n, a) {
        var c :| n in ReadyIn(inp', c) && ToPlace(inp', c, a);
        assert n in ReadyIn(inp, c) && ToPlace(inp, c, a);
      }
    }
    forall c, a | ToPlace(inp, c, a)
      ensures exists n :: n in ReadyIn(inp, c) && a in Get(out, n)
    {
      assert ToPlace(inp', c, a);
      var n :| n in ReadyIn(inp', c) && a in Get(out, n);
    }
  }

  /** Whatever the order of iteration and the choice among equally loaded nodes, the loads of the nodes of a block
      are the same up to a permutation of the nodes. */
  lemma LoadProfileConfluence(inp: Input, inp': Input, out: Assigned, out': Assigned, c: Cidr, ns: seq<Node>)
    requires WellFormed(inp) && SameProblem(inp, inp')
    requires IsPlacement(inp, out) && IsPlacement(inp', out') && ListsReady(inp, c, ns)
    ensures multiset(Loads(ns, out)) == multiset(Loads(ns, out'))
  {
    SamePlacements(inp, inp', out');
    PlacementBalanced(inp, out, c, ns);
    PlacementBalanced(inp, out', c, ns);
    SameTotal(inp, out, out', c, ns);
    B.Confluence(KeptLoads(ns, inp), Loads(ns, out), Loads(ns, out'));
  }

  /** When every wanted address is carried, each node ends with what it keeps. */
  lemma NothingToPlace(inp: Input, out: Assigned, n: Node)
    requires IsPlacement(inp, out)
    requires forall c, a :: !ToPlace(inp, c, a)
    ensures ToSet(Get(out, n)) == KeptSet(inp, n)
  {
    forall a
      ensures a in Get(out, n) <==> a in KeptSet(inp, n)
    {
      assert a in KeptSet(inp, n) <==> Kept(inp, n, a);
    }
  }
}
