/** The bucket queue of one block: its ready nodes by the number of addresses they have (ipam.go, getMinKey and the
    assignment loop). */
module Buckets {
  import opened Addresses
  import opened Text
  import opened Collections
  import opened Cluster

  /** Every node of `nodes` is in exactly one bucket, exactly once, and its key is the length of its list. */
  ghost predicate Queue(b: map<int, seq<Node>>, nodes: set<Node>, m: Assigned) {
    && (forall k :: k in b ==> NoDup(b[k]))
    && (forall k, n :: k in b && n in b[k] ==> n in nodes && Load(m, n) == k)
    && (forall n :: n in nodes ==> n in Get(b, Load(m, n)))
  }

  /** The least key of a nonempty bucket, or -1. */
  method GetMinKey(b: map<int, seq<Node>>) returns (k: int)
    ensures if forall j :: j in b ==> b[j] == [] then k == -1
            else k in b && b[k] != [] && forall j :: j in b && b[j] != [] ==> k <= j
  {
    var numbers: seq<int> := [];
    var keys := Listing(b.Keys);
    for i := 0 to |keys|
      invariant forall j :: j in numbers <==> j in keys[..i] && j in b && b[j] != []
    {
      assert keys[i] in ToSet(keys);
      assert keys[..i + 1] == keys[..i] + [keys[i]];
      if |b[keys[i]]| > 0 {
        numbers := numbers + [keys[i]];
      }
    }
    assert forall j :: j in b <==> j in ToSet(keys);
    if |numbers| == 0 {
      return -1;
    }
    var sorted := Sort(numbers);
    SameElements(sorted, numbers);
    assert forall j :: j in numbers <==> j in ToSet(sorted);
    assert sorted[0] in ToSet(sorted);
    return sorted[0];
  }

  /** The queue of the ready nodes of one block. */
  method BuildQueue(listed: seq<Node>, ready: set<Node>, m: Assigned) returns (b: map<int, seq<Node>>)
    requires NoDup(listed)
    ensures Queue(b, Among(listed, ready), m)
  {
    b := map[];
    for i := 0 to |listed|
      invariant Queue(b, Among(listed[..i], ready), m)
    {
      var n := listed[i];
      ghost var seen := Among(listed[..i], ready);
      assert n !in seen;
      if n in ready {
        assert Among(listed[..i + 1], ready) == seen + {n} by { assert listed[..i + 1] == listed[..i] + [n]; }
        QueueAdd(b, seen, m, n);
        var k := if n in m then |m[n]| else 0;
        b := b[k := Get(b, k) + [n]];
      } else {
        assert Among(listed[..i + 1], ready) == seen by { assert listed[..i + 1] == listed[..i] + [n]; }
      }
    }
    assert listed[..|listed|] == listed;
  }

  lemma QueueAdd(b: map<int, seq<Node>>, nodes: set<Node>, m: Assigned, n: Node)
    requires Queue(b, nodes, m) && n !in nodes
    ensures Queue(b[Load(m, n) := Get(b, Load(m, n)) + [n]], nodes + {n}, m)
  {
    var k := Load(m, n);
    assert n !in Get(b, k);
    var b' := b[k := Get(b, k) + [n]];
    forall x | x in nodes
      ensures x in Get(b', Load(m, x))
    {
      assert x in Get(b, Load(m, x));
    }
  }

  /** Moving the head of the least bucket to the next bucket. */
  lemma QueueMove(b: map<int, seq<Node>>, nodes: set<Node>, m: Assigned, k: int, a: Address)
    requires Queue(b, nodes, m) && k in b && b[k] != []
    ensures var n := b[k][0];
            var b1 := b[k := b[k][1..]];
            Queue(b1[k + 1 := Get(b1, k + 1) + [n]], nodes, m[n := Get(m, n) + [a]])
  {
    var n := b[k][0];
    var m' := m[n := Get(m, n) + [a]];
    var b1 := b[k := b[k][1..]];
    var b2 := b1[k + 1 := Get(b1, k + 1) + [n]];
    assert n in b[k];
    assert n !in b[k][1..];
    assert n !in Get(b, k + 1) by { assert Load(m, n) == k; }
    forall x | x in nodes
      ensures x in Get(b2, Load(m', x))
    {
      if x != n && Load(m, x) == k {
        assert x in b[k][1..];
      }
    }
    forall j, x | j in b2 && x in b2[j]
      ensures x in nodes && Load(m', x) == j
    {
      if x != n {
        assert x in Get(b, j);
      }
    }
  }

  lemma QueueHeads(b: map<int, seq<Node>>, nodes: set<Node>, m: Assigned)
    requires Queue(b, nodes, m)
    ensures forall j :: j in b && b[j] != [] ==> j >= 0 && b[j][0] in nodes
    ensures nodes != {} ==> exists j :: j in b && b[j] != []
  {
    forall j | j in b && b[j] != []
      ensures j >= 0 && b[j][0] in nodes
    {
      assert b[j][0] in b[j];
      assert Load(m, b[j][0]) == j;
    }
    if x :| x in nodes {
      assert x in Get(b, Load(m, x));
      assert b[Load(m, x)] != [];
    }
  }

  /** Gives one address to the node at the head of the least bucket, which is a least loaded node of the block. */
  method PlaceOne(b: map<int, seq<Node>>, m: Assigned, a: Address, ghost nodes: set<Node>)
    returns (n: Option<Node>, b': map<int, seq<Node>>, m': Assigned)
    requires Queue(b, nodes, m)
    ensures n.None? <==> nodes == {}
    ensures n.Some? ==> n.value in nodes && m' == m[n.value := Get(m, n.value) + [a]]
                        && Queue(b', nodes, m') && forall x :: x in nodes ==> Load(m, n.value) <= Load(m, x)
  {
    QueueHeads(b, nodes, m);
    var k := GetMinKey(b);
    b', m' := b, m;
    if k == -1 {
      return None, b', m';
    }
    n := Some(b[k][0]);
    forall x | x in nodes
      ensures k <= Load(m, x)
    {
      assert x in Get(b, Load(m, x));
    }
    assert b[k][0] in b[k];
    QueueMove(b, nodes, m, k, a);
    m' := m[n.value := Get(m, n.value) + [a]];
    b' := b[k := b[k][1..]];
    b' := b'[k + 1 := Get(b', k + 1) + [n.value]];
  }
}
