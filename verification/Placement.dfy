/** What a placement of the wanted addresses on the nodes must be, and what follows from that alone. */
module Placement {
  import opened Addresses
  import opened Text
  import opened Collections
  import opened Cluster
  import B = Balance

  /** The scheduler's input. `carried` has the addresses of the ready selected nodes; `rows` the annotations of the
      namespaces, position by position; `nodesByCidr` the selected nodes of each block. */
  datatype Input = Input(
    cidrs: seq<Cidr>,
    carried: Assigned,
    rows: seq<seq<Option<Address>>>,
    nodesByCidr: map<Cidr, seq<Node>>,
    ready: set<Node>,
    selected: set<Node>)

  ghost predicate Requested(inp: Input, a: Address) {
    exists k :: 0 <= k < |inp.rows| && Some(a) in inp.rows[k]
  }

  ghost predicate InSomeBlock(inp: Input, a: Address) {
    exists c :: c in inp.cidrs && c.Contains(a)
  }

  /** A namespace has the address, and it is in one of the blocks. */
  ghost predicate Wanted(inp: Input, a: Address) {
    Requested(inp, a) && InSomeBlock(inp, a)
  }

  ghost predicate IsCarried(inp: Input, a: Address) {
    exists n :: n in inp.carried && a in inp.carried[n]
  }

  /** The wanted addresses of block `c` that no ready node carries. */
  ghost predicate ToPlace(inp: Input, c: Cidr, a: Address) {
    c in inp.cidrs && c.Contains(a) && Requested(inp, a) && !IsCarried(inp, a)
  }

  /** Node `n` carries the address and it is still wanted. */
  ghost predicate Kept(inp: Input, n: Node, a: Address) {
    a in Get(inp.carried, n) && Wanted(inp, a)
  }

  ghost function KeptSet(inp: Input, n: Node): set<Address> {
    set a | a in Get(inp.carried, n) && Wanted(inp, a)
  }

  function ReadyIn(inp: Input, c: Cidr): set<Node> {
    Among(Get(inp.nodesByCidr, c), inp.ready)
  }

  /** Blocks do not overlap, a node is listed once and for one block, and a node carries an address once. */
  ghost predicate WellFormed(inp: Input) {
    && DisjointBlocks(inp.cidrs)
    && (forall c :: c in inp.nodesByCidr ==> c in inp.cidrs && NoDup(inp.nodesByCidr[c]))
    && (forall c, d, n :: n in Get(inp.nodesByCidr, c) && n in Get(inp.nodesByCidr, d) ==> c == d)
    && (forall c, n :: n in Get(inp.nodesByCidr, c) ==> n in inp.selected)
    && (forall n :: n in inp.carried ==> n in inp.ready && NoDup(inp.carried[n]))
  }

  /** No address that is kept is carried by two nodes. */
  ghost predicate KeptOnce(inp: Input) {
    forall n, m, a :: Kept(inp, n, a) && Kept(inp, m, a) ==> n == m
  }

  // ---------- the specification ----------

  ghost predicate OnlyWanted(inp: Input, out: Assigned) {
    forall n, a :: a in Get(out, n) ==> Kept(inp, n, a) || exists c :: n in ReadyIn(inp, c) && ToPlace(inp, c, a)
  }

  ghost predicate KeepsAll(inp: Input, out: Assigned) {
    forall n, a :: Kept(inp, n, a) ==> a in Get(out, n)
  }

  ghost predicate PlacesAll(inp: Input, out: Assigned) {
    forall c, a :: ToPlace(inp, c, a) ==> exists n :: n in ReadyIn(inp, c) && a in Get(out, n)
  }

  ghost predicate OnceEach(out: Assigned) {
    && (forall n :: NoDup(Get(out, n)))
    && (forall n, m, a :: a in Get(out, n) && a in Get(out, m) ==> n == m)
  }

  /** A node has an address once, and one that is on two nodes was carried by both. */
  ghost predicate OnceUnlessKept(inp: Input, out: Assigned) {
    && (forall n :: NoDup(Get(out, n)))
    && (forall n, m, a :: a in Get(out, n) && a in Get(out, m) && n != m ==> Kept(inp, n, a) && Kept(inp, m, a))
  }

  /** In each block, a ready node that received an address ends at most one above any other ready node. */
  ghost predicate BalancedIn(inp: Input, out: Assigned) {
    forall c, x, y :: x in ReadyIn(inp, c) && y in ReadyIn(inp, c) && Load(out, x) > |KeptSet(inp, x)|
                      ==> Load(out, x) <= Load(out, y) + 1
  }

  /** The nodes that appear in the result: those of the blocks that are ready, those that keep something, and the
      selected ones that are not ready, with nothing on them. */
  ghost predicate NodesOf(inp: Input, out: Assigned) {
    && (forall n :: n in out <==> (exists c :: n in ReadyIn(inp, c)) || KeptSet(inp, n) != {} || n in inp.selected - inp.ready)
    && (forall n :: n in inp.selected - inp.ready ==> Get(out, n) == [])
  }

  ghost predicate IsPlacement(inp: Input, out: Assigned) {
    OnlyWanted(inp, out) && KeepsAll(inp, out) && PlacesAll(inp, out) && OnceUnlessKept(inp, out) && BalancedIn(inp, out)
    && NodesOf(inp, out)
  }

  /** Some block has an address to place and no ready node to place it on. */
  ghost predicate Stuck(inp: Input, c: Cidr) {
    (exists a :: ToPlace(inp, c, a)) && ReadyIn(inp, c) == {}
  }
}
