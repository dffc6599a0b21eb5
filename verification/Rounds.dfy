/** The assignment loop: block after block, address after address, each to a least loaded node (ipam.go,
    assignIPsToNodes from step 7 on). */
module Rounds {
  import opened Addresses
  import opened Text
  import opened Collections
  import opened Cluster
  import opened Buckets
  import opened Scheduler

  type Queues = map<Cidr, map<int, seq<Node>>>

  /** Lists only got longer, and a node without a list got one only together with an address. */
  ghost predicate Longer(base: Assigned, m: Assigned) {
    && (forall n :: Get(base, n) <= Get(m, n))
    && (forall n :: n in base ==> n in m)
    && (forall n :: n in m && n !in base ==> m[n] != [])
  }

  /** The addresses that were added are those of `owner`, each on its owner and nowhere else. */
  ghost predicate Added(base: Assigned, m: Assigned, owner: map<Address, Node>) {
    forall n, a :: a in Get(m, n) <==> a in Get(base, n) || (a in owner && owner[a] == n)
  }

  ghost predicate Grown(base: Assigned, m: Assigned, owner: map<Address, Node>) {
    Longer(base, m) && Added(base, m, owner) && NoRepeats(m)
  }

  /** Only the lists of `nodes` changed. */
  ghost predicate Elsewhere(base: Assigned, m: Assigned, nodes: set<Node>) {
    forall n :: n !in nodes ==> Get(m, n) == Get(base, n)
  }

  /** Among `nodes`, who received an address ends at most one above the others. */
  ghost predicate Level(nodes: set<Node>, base: Assigned, m: Assigned) {
    forall x, y :: x in nodes && y in nodes && Load(m, x) > Load(base, x) ==> Load(m, x) <= Load(m, y) + 1
  }

  lemma AddedOne(base: Assigned, m: Assigned, owner: map<Address, Node>, n: Node, a: Address)
    requires Added(base, m, owner)
    requires a !in owner
    ensures Added(base, m[n := Get(m, n) + [a]], owner[a := n])
  {
  }

  lemma GrowOne(base: Assigned, m: Assigned, owner: map<Address, Node>, n: Node, a: Address)
    requires Grown(base, m, owner)
    requires forall x :: a !in Get(m, x)
    ensures Grown(base, m[n := Get(m, n) + [a]], owner[a := n])
  {
    assert forall b :: b in owner ==> b in Get(m, owner[b]);
    AddedOne(base, m, owner, n, a);
    var m' := m[n := Get(m, n) + [a]];
    forall x
      ensures NoDup(Get(m', x))
    {
      assert a !in Get(m, x);
    }
  }

  lemma LevelOne(nodes: set<Node>, base: Assigned, m: Assigned, n: Node, a: Address)
    requires Level(nodes, base, m)
    requires n in nodes && forall x :: x in nodes ==> Load(m, n) <= Load(m, x)
    ensures Level(nodes, base, m[n := Get(m, n) + [a]])
  {
  }

  /** The outcome for one block: `ips` were given to `nodes`, each to a least loaded one at its time. */
  ghost predicate HandedOut(nodes: set<Node>, base: Assigned, m: Assigned, owner: map<Address, Node>, ips: set<Address>) {
    && Grown(base, m, owner)
    && Elsewhere(base, m, nodes)
    && Level(nodes, base, m)
    && owner.Keys == ips
    && forall a :: a in owner ==> owner[a] in nodes
  }

  lemma GiveOne(nodes: set<Node>, base: Assigned, m: Assigned, owner: map<Address, Node>, ips: set<Address>, n: Node, a: Address)
    requires HandedOut(nodes, base, m, owner, ips)
    requires a !in ips && forall x :: a !in Get(base, x)
    requires n in nodes && forall x :: x in nodes ==> Load(m, n) <= Load(m, x)
    ensures HandedOut(nodes, base, m[n := Get(m, n) + [a]], owner[a := n], ips + {a})
  {
    assert forall x :: a !in Get(m, x);
    GrowOne(base, m, owner, n, a);
    LevelOne(nodes, base, m, n, a);
  }

  lemma GiveNone(nodes: set<Node>, base: Assigned)
    requires NoRepeats(base)
    ensures HandedOut(nodes, base, base, map[], {})
  {
  }

  method GiveNext(b: map<int, seq<Node>>, m: Assigned, a: Address,
                  ghost nodes: set<Node>, ghost base: Assigned, ghost owner: map<Address, Node>, ghost given: set<Address>)
    returns (ok: bool, b': map<int, seq<Node>>, m': Assigned, ghost owner': map<Address, Node>)
    requires Queue(b, nodes, m) && HandedOut(nodes, base, m, owner, given)
    requires a !in given && forall x :: a !in Get(base, x)
    ensures ok <==> nodes != {}
    ensures ok ==> Queue(b', nodes, m') && HandedOut(nodes, base, m', owner', given + {a})
  {
    var n;
    n, b', m' := PlaceOne(b, m, a, nodes);
    ok, owner' := n.Some?, owner;
    if ok {
      GiveOne(nodes, base, m, owner, given, n.value, a);
      owner' := owner[a := n.value];
    }
  }

  /** One block: gives out `ips` one by one. */
  method PlaceBlock(b: map<int, seq<Node>>, base: Assigned, ips: seq<Address>, ghost nodes: set<Node>)
    returns (ok: bool, b': map<int, seq<Node>>, m: Assigned, ghost owner: map<Address, Node>)
    requires Queue(b, nodes, base) && NoRepeats(base)
    requires NoDup(ips) && forall a, n :: a in ips ==> a !in Get(base, n)
    ensures ok <==> ips == [] || nodes != {}
    ensures ok ==> Queue(b', nodes, m) && HandedOut(nodes, base, m, owner, ToSet(ips))
  {
    hide HandedOut, Queue;
    b', m, owner, ok := b, base, map[], true;
    GiveNone(nodes, base);
    ghost var given: set<Address> := {};
    for i := 0 to |ips|
      invariant ok && (i > 0 ==> nodes != {})
      invariant given == ToSet(ips[..i])
      invariant Queue(b', nodes, m) && HandedOut(nodes, base, m, owner, given)
    {
      assert ips[i] in ips && ips[i] !in given by { assert ips[i] !in ips[..i]; }
      ok, b', m, owner := GiveNext(b', m, ips[i], nodes, base, owner, given);
      if !ok {
        return;
      }
      given := given + {ips[i]};
      assert ips[..i + 1] == ips[..i] + [ips[i]];
    }
    assert ips[..|ips|] == ips;
  }

  // ---------- all blocks ----------

  function QueueOf(queues: Queues, c: Cidr): map<int, seq<Node>> {
    if c in queues then queues[c] else map[]
  }

  /** Every block has its queue, whatever happened to the lists of the nodes of other blocks. */
  ghost predicate AllQueues(queues: Queues, nodesOf: map<Cidr, set<Node>>, m: Assigned) {
    forall c :: c in nodesOf ==> Queue(QueueOf(queues, c), nodesOf[c], m)
  }

  ghost predicate Apart(nodesOf: map<Cidr, set<Node>>) {
    forall c, d, n :: c in nodesOf && d in nodesOf && n in nodesOf[c] && n in nodesOf[d] ==> c == d
  }

  lemma QueueFrame(b: map<int, seq<Node>>, nodes: set<Node>, m: Assigned, m': Assigned)
    requires Queue(b, nodes, m) && forall n :: n in nodes ==> Get(m', n) == Get(m, n)
    ensures Queue(b, nodes, m')
  {
    assert forall n :: n in nodes ==> Load(m', n) == Load(m, n);
  }

  lemma AddedTwice(base: Assigned, m: Assigned, m': Assigned, owner: map<Address, Node>, more: map<Address, Node>)
    requires Added(base, m, owner) && Added(m, m', more) && owner.Keys !! more.Keys
    ensures Added(base, m', owner + more)
  {
  }

  lemma LongerTwice(base: Assigned, m: Assigned, m': Assigned)
    requires Longer(base, m) && Longer(m, m')
    ensures Longer(base, m')
  {
    forall n
      ensures Get(base, n) <= Get(m', n)
    {
      assert Get(base, n) <= Get(m, n) <= Get(m', n);
    }
    forall n | n in m' && n !in base
      ensures m'[n] != []
    {
      if n in m {
        assert Get(m, n) <= Get(m', n);
      }
    }
  }

  /** The owner of an address is a node of its block. */
  ghost predicate OwnedInBlock(toPlace: map<Cidr, seq<Address>>, nodesOf: map<Cidr, set<Node>>, owner: map<Address, Node>)
    requires toPlace.Keys == nodesOf.Keys
  {
    forall a, c :: a in owner && c in toPlace && a in toPlace[c] ==> owner[a] in nodesOf[c]
  }

  /** What the loop over the blocks has done so far: `toPlace` is finished for the blocks in `done`. */
  ghost predicate Placed(toPlace: map<Cidr, seq<Address>>, nodesOf: map<Cidr, set<Node>>, done: set<Cidr>,
                         base: Assigned, m: Assigned, owner: map<Address, Node>)
    requires toPlace.Keys == nodesOf.Keys
  {
    && Grown(base, m, owner)
    && owner.Keys == ListedFor(toPlace, done)
    && OwnedInBlock(toPlace, nodesOf, owner)
    && (forall c :: c in done && c in nodesOf ==> Level(nodesOf[c], base, m))
    && (forall c, n :: c in nodesOf && c !in done && n in nodesOf[c] ==> Get(m, n) == Get(base, n))
  }

  lemma LevelFrame(nodes: set<Node>, base: Assigned, m: Assigned, base': Assigned, m': Assigned)
    requires Level(nodes, base, m)
    requires forall n :: n in nodes ==> Get(base', n) == Get(base, n) && Get(m', n) == Get(m, n)
    ensures Level(nodes, base', m')
  {
    forall x, y | x in nodes && y in nodes && Load(m', x) > Load(base', x)
      ensures Load(m', x) <= Load(m', y) + 1
    {
      assert Load(m', x) == Load(m, x) && Load(m', y) == Load(m, y) && Load(base', x) == Load(base, x);
    }
  }

  ghost predicate DisjointLists(toPlace: map<Cidr, seq<Address>>) {
    forall d, e, a :: d in toPlace && e in toPlace && a in toPlace[d] && a in toPlace[e] ==> d == e
  }

  lemma PlacedStep(toPlace: map<Cidr, seq<Address>>, nodesOf: map<Cidr, set<Node>>, done: set<Cidr>, c: Cidr,
                   base: Assigned, m: Assigned, m': Assigned, owner: map<Address, Node>, more: map<Address, Node>)
    requires toPlace.Keys == nodesOf.Keys && Apart(nodesOf) && DisjointLists(toPlace)
    requires Placed(toPlace, nodesOf, done, base, m, owner)
    requires c in toPlace && c !in done
    requires HandedOut(nodesOf[c], m, m', more, ToSet(toPlace[c]))
    ensures Placed(toPlace, nodesOf, done + {c}, base, m', owner + more)
  {
    assert owner.Keys !! more.Keys by {
      assert forall a :: a in more ==> a in toPlace[c];
    }
    AddedTwice(base, m, m', owner, more);
    LongerTwice(base, m, m');
    OwnersStep(toPlace, nodesOf, done, c, owner, more);
    forall d | d in done + {c} && d in nodesOf
      ensures Level(nodesOf[d], base, m')
    {
      if d == c {
        LevelFrame(nodesOf[c], m, m', base, m');
      } else {
        LevelFrame(nodesOf[d], base, m, base, m');
      }
    }
  }

  lemma OwnersStep(toPlace: map<Cidr, seq<Address>>, nodesOf: map<Cidr, set<Node>>, done: set<Cidr>, c: Cidr,
                   owner: map<Address, Node>, more: map<Address, Node>)
    requires toPlace.Keys == nodesOf.Keys && DisjointLists(toPlace)
    requires c in toPlace && c !in done
    requires owner.Keys == ListedFor(toPlace, done) && OwnedInBlock(toPlace, nodesOf, owner)
    requires more.Keys == ToSet(toPlace[c]) && forall a :: a in more ==> more[a] in nodesOf[c]
    ensures (owner + more).Keys == ListedFor(toPlace, done + {c})
    ensures OwnedInBlock(toPlace, nodesOf, owner + more)
  {
    forall a
      ensures a in owner + more <==> a in ListedFor(toPlace, done + {c})
    {
      assert a in more <==> a in toPlace[c];
    }
  }

  /** Every block that has something to place has a node to place it on. */
  ghost predicate NoneStuck(toPlace: map<Cidr, seq<Address>>, nodesOf: map<Cidr, set<Node>>, done: set<Cidr>)
    requires toPlace.Keys == nodesOf.Keys
  {
    forall d :: d in done && d in toPlace ==> toPlace[d] == [] || nodesOf[d] != {}
  }

  ghost predicate Placeable(queues: Queues, base: Assigned, toPlace: map<Cidr, seq<Address>>, nodesOf: map<Cidr, set<Node>>) {
    && toPlace.Keys == nodesOf.Keys && Apart(nodesOf)
    && NoRepeats(base) && AllQueues(queues, nodesOf, base)
    && DisjointLists(toPlace)
    && (forall d, n, a :: d in toPlace && a in toPlace[d] ==> a !in Get(base, n))
    && (forall d :: d in toPlace ==> NoDup(toPlace[d]))
  }

  /** Between two blocks. */
  ghost predicate RoundState(queues: Queues, base: Assigned, toPlace: map<Cidr, seq<Address>>, nodesOf: map<Cidr, set<Node>>,
                             done: set<Cidr>, m: Assigned, owner: map<Address, Node>)
    requires toPlace.Keys == nodesOf.Keys
  {
    && NoneStuck(toPlace, nodesOf, done)
    && Placed(toPlace, nodesOf, done, base, m, owner)
    && AllQueues(queues, nodesOf, m)
  }

  method PlaceNext(queues: Queues, m: Assigned, c: Cidr, ips: seq<Address>,
                   ghost base: Assigned, ghost toPlace: map<Cidr, seq<Address>>, ghost nodesOf: map<Cidr, set<Node>>,
                   ghost done: set<Cidr>, ghost owner: map<Address, Node>)
    returns (ok: bool, queues': Queues, m': Assigned, ghost owner': map<Address, Node>)
    requires toPlace.Keys == nodesOf.Keys && Apart(nodesOf) && DisjointLists(toPlace)
    requires RoundState(queues, base, toPlace, nodesOf, done, m, owner)
    requires c in toPlace && c !in done && ips == toPlace[c] && NoDup(ips)
    requires forall n, a :: a in ips ==> a !in Get(base, n)
    ensures ok <==> ips == [] || nodesOf[c] != {}
    ensures ok ==> RoundState(queues', base, toPlace, nodesOf, done + {c}, m', owner') && queues'.Keys == queues.Keys + {c}
  {
    NotYetPlaced(toPlace, nodesOf, done, c, base, m, owner);
    var b;
    ghost var more;
    ok, b, m', more := PlaceBlock(QueueOf(queues, c), m, ips, nodesOf[c]);
    queues', owner' := queues[c := b], owner + more;
    if ok {
      PlacedStep(toPlace, nodesOf, done, c, base, m, m', owner, more);
      QueuesStep(queues, nodesOf, c, b, m, m');
    }
  }

  lemma StartRounds(queues: Queues, base: Assigned, toPlace: map<Cidr, seq<Address>>, nodesOf: map<Cidr, set<Node>>)
    requires Placeable(queues, base, toPlace, nodesOf)
    ensures RoundState(queues, base, toPlace, nodesOf, {}, base, map[])
  {
  }

  lemma PlaceableBlock(queues: Queues, base: Assigned, toPlace: map<Cidr, seq<Address>>, nodesOf: map<Cidr, set<Node>>, c: Cidr)
    requires Placeable(queues, base, toPlace, nodesOf) && c in toPlace
    ensures toPlace.Keys == nodesOf.Keys && Apart(nodesOf) && DisjointLists(toPlace) && NoDup(toPlace[c])
    ensures forall n, a :: a in toPlace[c] ==> a !in Get(base, n)
  {
  }

  method PlaceBlocks(queues: Queues, base: Assigned, toPlace: map<Cidr, seq<Address>>, ghost nodesOf: map<Cidr, set<Node>>)
    returns (stuck: Option<Cidr>, m: Assigned, queues': Queues, ghost owner: map<Address, Node>)
    requires Placeable(queues, base, toPlace, nodesOf)
    ensures stuck.None? <==> NoneStuck(toPlace, nodesOf, toPlace.Keys)
    ensures stuck.Some? ==> stuck.value in toPlace && toPlace[stuck.value] != [] && nodesOf[stuck.value] == {}
    ensures stuck.None? ==> RoundState(queues', base, toPlace, nodesOf, toPlace.Keys, m, owner)
    ensures stuck.None? ==> queues'.Keys <= queues.Keys + toPlace.Keys
  {
    queues', m, owner := queues, base, map[];
    StartRounds(queues, base, toPlace, nodesOf);
    hide AllQueues, Placed, Apart, DisjointLists, NoRepeats, Placeable;
    var todo := toPlace.Keys;
    ghost var done: set<Cidr> := {};
    while todo != {}
      invariant todo <= toPlace.Keys && done == toPlace.Keys - todo
      invariant RoundState(queues', base, toPlace, nodesOf, done, m, owner)
      invariant queues'.Keys <= queues.Keys + toPlace.Keys
    {
      var c :| c in todo;
      PlaceableBlock(queues, base, toPlace, nodesOf, c);
      var ok;
      ok, queues', m, owner := PlaceNext(queues', m, c, toPlace[c], base, toPlace, nodesOf, done, owner);
      if !ok {
        return Some(c), m, queues', owner;
      }
      todo, done := todo - {c}, done + {c};
    }
    assert done == toPlace.Keys;
    stuck := None;
  }

  lemma NotYetPlaced(toPlace: map<Cidr, seq<Address>>, nodesOf: map<Cidr, set<Node>>, done: set<Cidr>, c: Cidr,
                     base: Assigned, m: Assigned, owner: map<Address, Node>)
    requires toPlace.Keys == nodesOf.Keys && DisjointLists(toPlace)
    requires Placed(toPlace, nodesOf, done, base, m, owner)
    requires c in toPlace && c !in done
    requires forall n, a :: a in toPlace[c] ==> a !in Get(base, n)
    ensures forall a, n :: a in toPlace[c] ==> a !in Get(m, n)
  {
    forall a, n | a in toPlace[c]
      ensures a !in Get(m, n)
    {
      assert a !in ListedFor(toPlace, done);
    }
  }

  lemma QueuesStep(queues: Queues, nodesOf: map<Cidr, set<Node>>, c: Cidr, b: map<int, seq<Node>>, m: Assigned, m': Assigned)
    requires Apart(nodesOf) && AllQueues(queues, nodesOf, m) && c in nodesOf
    requires Elsewhere(m, m', nodesOf[c]) && Queue(b, nodesOf[c], m')
    ensures AllQueues(queues[c := b], nodesOf, m')
  {
    forall d | d in nodesOf
      ensures Queue(QueueOf(queues[c := b], d), nodesOf[d], m')
    {
      if d != c {
        QueueFrame(QueueOf(queues, d), nodesOf[d], m, m');
      }
    }
  }
}
