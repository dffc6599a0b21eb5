/** Placing the wanted addresses on nodes (ipam.go, assignIPsToNodes). */
module Scheduler {
  import opened Addresses
  import opened Text
  import opened Collections
  import opened Cluster
  import opened Buckets

  // ---------- steps 1 and 2: addresses by block ----------

  /** The readable addresses of the list that are in block `c`. */
  ghost function InBlock(ips: seq<Option<Address>>, c: Cidr): seq<Address> {
    if ips == [] then []
    else InBlock(ips[..|ips| - 1], c)
         + (var ip := ips[|ips| - 1]; if ip.Some? && c.Contains(ip.value) then [ip.value] else [])
  }

  lemma {:induction false} InBlockElements(ips: seq<Option<Address>>, c: Cidr, a: Address)
    ensures a in InBlock(ips, c) <==> Some(a) in ips && c.Contains(a)
  {
    if ips != [] {
      InBlockElements(ips[..|ips| - 1], c, a);
      assert ips == ips[..|ips| - 1] + [ips[|ips| - 1]];
    }
  }

  method AppendByBlock(m: map<Cidr, seq<Address>>, ips: seq<Option<Address>>) returns (r: map<Cidr, seq<Address>>)
    ensures r.Keys == m.Keys
    ensures forall c, a :: c in m ==> (a in r[c] <==> a in m[c] || (Some(a) in ips && c.Contains(a)))
  {
    r := m;
    var todo := m.Keys;
    while todo != {}
      invariant todo <= m.Keys == r.Keys
      invariant forall c :: c in todo ==> r[c] == m[c]
      invariant forall c :: c in m.Keys - todo ==> r[c] == m[c] + InBlock(ips, c)
    {
      var c :| c in todo;
      var l := r[c];
      for i := 0 to |ips|
        invariant l == m[c] + InBlock(ips[..i], c)
      {
        assert ips[..i + 1][..i] == ips[..i];
        if ips[i].Some? && c.Contains(ips[i].value) {
          l := l + [ips[i].value];
        }
      }
      assert ips[..|ips|] == ips;
      r := r[c := l];
      todo := todo - {c};
    }
    forall c, a: Address | c in m
      ensures a in r[c] <==> a in m[c] || (Some(a) in ips && c.Contains(a))
    {
      InBlockElements(ips, c, a);
    }
  }

  method CarriedByBlock(cidrs: seq<Cidr>, carried: map<Node, seq<Address>>) returns (m: map<Cidr, seq<Address>>)
    ensures m.Keys == ToSet(cidrs)
    ensures forall c, a :: c in m ==> (a in m[c] <==> c.Contains(a) && exists n :: n in carried && a in carried[n])
  {
    m := map c | c in cidrs :: [];
    var todo := carried.Keys;
    while todo != {}
      invariant todo <= carried.Keys && m.Keys == ToSet(cidrs)
      invariant forall c, a :: c in m ==> (a in m[c] <==> c.Contains(a) && exists n :: n in carried.Keys - todo && a in carried[n])
    {
      var n :| n in todo;
      var ips := seq(|carried[n]|, i requires 0 <= i < |carried[n]| => Some(carried[n][i]));
      assert forall i :: 0 <= i < |ips| ==> ips[i] == Some(carried[n][i]);
      assert forall a: Address :: a in carried[n] ==> Some(a) in ips;
      m := AppendByBlock(m, ips);
      todo := todo - {n};
    }
  }

  /** One of the first `k` rows has the address. */
  ghost predicate InFirst(rows: seq<seq<Option<Address>>>, k: nat, a: Address) {
    exists j :: 0 <= j < k && j < |rows| && Some(a) in rows[j]
  }

  lemma InOneMore(rows: seq<seq<Option<Address>>>, k: nat, a: Address)
    requires k < |rows|
    ensures InFirst(rows, k + 1, a) <==> InFirst(rows, k, a) || Some(a) in rows[k]
  {
  }

  method WantedByBlock(cidrs: seq<Cidr>, rows: seq<seq<Option<Address>>>) returns (m: map<Cidr, seq<Address>>)
    ensures m.Keys == ToSet(cidrs)
    ensures forall c, a :: c in m ==> (a in m[c] <==> c.Contains(a) && exists k :: 0 <= k < |rows| && Some(a) in rows[k])
  {
    m := map c | c in cidrs :: [];
    for k := 0 to |rows|
      invariant m.Keys == ToSet(cidrs)
      invariant forall c, a :: c in m ==> (a in m[c] <==> c.Contains(a) && InFirst(rows, k, a))
    {
      ghost var before := m;
      m := AppendByBlock(m, rows[k]);
      hide InFirst;
      forall c, a: Address | c in m
        ensures a in m[c] <==> c.Contains(a) && InFirst(rows, k + 1, a)
      {
        InOneMore(rows, k, a);
        assert a in m[c] <==> a in before[c] || (Some(a) in rows[k] && c.Contains(a));
      }
    }
    forall a: Address
      ensures InFirst(rows, |rows|, a) <==> exists k :: 0 <= k < |rows| && Some(a) in rows[k]
    {
    }
  }

  // ---------- steps 3 and 4: what to place and what to keep ----------

  method DiffAndKeep(wanted: map<Cidr, seq<Address>>, onNodes: map<Cidr, seq<Address>>)
    returns (toPlace: map<Cidr, seq<Address>>, kept: map<Cidr, seq<Address>>)
    requires wanted.Keys == onNodes.Keys
    ensures toPlace.Keys == kept.Keys == wanted.Keys
    ensures forall c :: c in wanted ==> NoDup(toPlace[c]) && ToSet(toPlace[c]) == ToSet(wanted[c]) - ToSet(onNodes[c])
    ensures forall c :: c in wanted ==> NoDup(kept[c]) && ToSet(kept[c]) == ToSet(onNodes[c]) * ToSet(wanted[c])
  {
    toPlace, kept := map[], map[];
    var todo := wanted.Keys;
    while todo != {}
      invariant todo <= wanted.Keys && toPlace.Keys == kept.Keys == wanted.Keys - todo
      invariant forall c :: c in toPlace ==> NoDup(toPlace[c]) && ToSet(toPlace[c]) == ToSet(wanted[c]) - ToSet(onNodes[c])
      invariant forall c :: c in kept ==> NoDup(kept[c]) && ToSet(kept[c]) == ToSet(onNodes[c]) * ToSet(wanted[c])
    {
      var c :| c in todo;
      var place := Listing(ToSet(wanted[c]) - ToSet(onNodes[c]));
      var keep := Listing(ToSet(onNodes[c]) * ToSet(wanted[c]));
      toPlace, kept := toPlace[c := place], kept[c := keep];
      todo := todo - {c};
    }
  }

  // ---------- step 5: the kept addresses node by node ----------

  ghost predicate NoRepeats(m: Assigned) {
    forall n :: NoDup(Get(m, n))
  }

  ghost function Matches(ips: seq<Address>, a: Address): seq<Address> {
    if a in ips then [a] else []
  }

  method CollectMatches(ips: seq<Address>, a: Address) returns (r: seq<Address>)
    requires NoDup(ips)
    ensures r == Matches(ips, a)
  {
    r := [];
    for i := 0 to |ips|
      invariant r == Matches(ips[..i], a)
    {
      assert ips[..i + 1] == ips[..i] + [ips[i]];
      if ips[i] == a {
        assert a !in ips[..i];
        r := r + [a];
      }
    }
    assert ips[..|ips|] == ips;
  }

  /** `m` after `a` was kept on the nodes that carry it. */
  method KeepOne(m: Assigned, a: Address, carried: map<Node, seq<Address>>) returns (r: Assigned)
    requires forall n :: n in carried ==> NoDup(carried[n])
    ensures forall n :: Get(r, n) == Get(m, n) + Matches(Get(carried, n), a)
    ensures forall n :: n in r ==> n in m || a in Get(carried, n)
  {
    r := m;
    var todo := carried.Keys;
    while todo != {}
      invariant todo <= carried.Keys
      invariant forall n :: n in todo ==> Get(r, n) == Get(m, n)
      invariant forall n :: n !in todo ==> Get(r, n) == Get(m, n) + Matches(Get(carried, n), a)
      invariant forall n :: n in r ==> n in m || a in Get(carried, n)
    {
      var n :| n in todo;
      var matches := CollectMatches(carried[n], a);
      ghost var before := r;
      if matches != [] {
        r := r[n := Get(r, n) + matches];
        assert a in Get(carried, n);
      }
      assert Get(r, n) == Get(m, n) + matches;
      assert forall x :: x != n ==> Get(r, x) == Get(before, x);
      todo := todo - {n};
    }
  }

  ghost predicate KeptExactly(m: Assigned, carried: map<Node, seq<Address>>, kept: set<Address>) {
    && NoRepeats(m)
    && (forall n, a :: a in Get(m, n) <==> a in Get(carried, n) && a in kept)
    && (forall n :: n in m ==> m[n] != [])
  }

  /** The addresses listed for some of the blocks. */
  ghost function ListedFor(m: map<Cidr, seq<Address>>, cs: set<Cidr>): set<Address> {
    set c, a | c in cs && c in m && a in m[c] :: a
  }

  method KeepOnNodes(kept: map<Cidr, seq<Address>>, carried: map<Node, seq<Address>>) returns (m: Assigned)
    requires forall n :: n in carried ==> NoDup(carried[n])
    requires forall c :: c in kept ==> NoDup(kept[c])
    requires forall c, d, a :: c in kept && d in kept && a in kept[c] && a in kept[d] ==> c == d
    ensures KeptExactly(m, carried, ListedFor(kept, kept.Keys))
  {
    m := map[];
    var todo := kept.Keys;
    ghost var done: set<Address> := {};
    while todo != {}
      invariant todo <= kept.Keys
      invariant done == ListedFor(kept, kept.Keys - todo)
      invariant KeptExactly(m, carried, done)
    {
      var c :| c in todo;
      ghost var before := done;
      for i := 0 to |kept[c]|
        invariant done == before + ToSet(kept[c][..i])
        invariant KeptExactly(m, carried, done)
      {
        var a := kept[c][i];
        assert kept[c][..i + 1] == kept[c][..i] + [a];
        assert a !in done;
        var next := KeepOne(m, a, carried);
        KeepStep(m, next, carried, done, a);
        m := next;
        done := done + {a};
      }
      assert kept[c][..|kept[c]|] == kept[c];
      todo := todo - {c};
    }
    assert kept.Keys - todo == kept.Keys;
  }

  lemma KeepStep(m: Assigned, r: Assigned, carried: map<Node, seq<Address>>, done: set<Address>, a: Address)
    requires KeptExactly(m, carried, done) && a !in done
    requires forall n :: Get(r, n) == Get(m, n) + Matches(Get(carried, n), a)
    requires forall n :: n in r ==> n in m || a in Get(carried, n)
    ensures KeptExactly(r, carried, done + {a})
  {
    forall n
      ensures NoDup(Get(r, n))
    {
      assert a !in Get(m, n);
    }
    forall n | n in r
      ensures r[n] != []
    {
      assert Get(r, n) == Get(m, n) + Matches(Get(carried, n), a);
    }
  }
}
