/** Choosing the next free address of every block (ipam.go, getNextAvailableIP and getNextAvailableIPs). */
module Allocation {
  import opened Addresses
  import opened Collections
  import opened FreeLists
  import Slices

  datatype AllocationError = NoMoreAddresses(c: Cidr) | NeverHere

  /** What the search relies on: the ascending list of used addresses of the block, its last address among them. */
  ghost predicate Tracks(c: Cidr, taken: seq<Address>) {
    && StrictlyIncreasing(taken)
    && (forall i :: 0 <= i < |taken| ==> c.Contains(taken[i]))
    && c.Last() in taken
  }

  lemma {:induction false} Spread(s: seq<int>, i: nat, j: nat)
    requires StrictlyIncreasing(s)
    requires i <= j < |s|
    ensures s[j] - s[i] >= j - i
    decreases j
  {
    if i < j {
      Spread(s, i, j - 1);
    }
  }

  lemma TracksBounds(c: Cidr, s: seq<Address>)
    requires Tracks(c, s)
    ensures 1 <= |s| <= c.Size() <= SPACE
    ensures s[|s| - 1] == c.Last()
    ensures forall i :: 0 <= i < |s| ==> c.First() + i <= s[i] <= c.Last()
  {
    c.Bounds();
    var k :| 0 <= k < |s| && s[k] == c.Last();
    var n := |s|;
    assert c.Contains(s[n - 1]);
    assert k == n - 1;
    forall i | 0 <= i < n
      ensures c.First() + i <= s[i] <= c.Last()
    {
      assert c.Contains(s[0]) && c.Contains(s[i]);
      Spread(s, 0, i);
    }
  }

  /** Pigeonhole: a list that reaches the last address has a gap exactly when it is not the whole block. */
  lemma GapExists(c: Cidr, s: seq<Address>)
    requires Tracks(c, s)
    ensures |s| < c.Size() <==> exists i :: 0 <= i < |s| && s[i] != Delta(c.First(), i)
  {
    TracksBounds(c, s);
    c.Bounds();
    var n := |s| - 1;
    if |s| < c.Size() {
      assert s[n] != Delta(c.First(), n);
    }
    if i :| 0 <= i < |s| && s[i] != Delta(c.First(), i) {
      Spread(s, i, n);
    }
  }

  lemma WholeBlock(c: Cidr, s: seq<Address>)
    requires Tracks(c, s)
    requires |s| == c.Size()
    ensures Free(c, ToSet(s)) == []
  {
    NoDupCardinality(s);
    FreeCount(c, ToSet(s));
  }

  lemma InsertInOrder(s: seq<int>, i: nat, x: int)
    requires StrictlyIncreasing(s)
    requires i < |s| && x < s[i] && (i > 0 ==> s[i - 1] < x)
    ensures StrictlyIncreasing(s[..i] + [x] + s[i..])
  {
    var s' := s[..i] + [x] + s[i..];
    forall p, q | 0 <= p < q < |s'|
      ensures s'[p] < s'[q]
    {
      assert p < i ==> s[p] <= s[i - 1];
      assert q > i ==> s[i] <= s[q - 1];
    }
  }

  lemma InsertedAt<T>(s: seq<T>, i: nat, x: T)
    requires i <= |s|
    ensures ToSet(s[..i] + [x] + s[i..]) == ToSet(s) + {x}
  {
    assert s == s[..i] + s[i..];
    ToSetAppend(s[..i], s[i..]);
    ToSetAppend(s[..i], [x]);
    ToSetAppend(s[..i] + [x], s[i..]);
  }

  /** The list is in step with the block up to position `i`, where it is not. */
  ghost predicate GapAt(c: Cidr, s: seq<Address>, i: nat) {
    && i < |s|
    && s[i] != Delta(c.First(), i)
    && forall j :: 0 <= j < i ==> s[j] == Delta(c.First(), j)
  }

  lemma GapAbsent(c: Cidr, s: seq<Address>, i: nat)
    requires Tracks(c, s) && GapAt(c, s, i)
    ensures c.First() <= Delta(c.First(), i) == c.First() + i < s[i] <= c.Last()
    ensures Delta(c.First(), i) !in s
  {
    TracksBounds(c, s);
    assert Delta(c.First(), i) == c.First() + i by { c.Bounds(); }
    forall k | 0 <= k < |s|
      ensures s[k] != c.First() + i
    {
      if k < i {
        assert s[k] == Delta(c.First(), k);
        c.Bounds();
      } else if k > i {
        assert s[i] < s[k];
      }
    }
  }

  lemma GapIsLeastFree(c: Cidr, s: seq<Address>, i: nat)
    requires Tracks(c, s) && GapAt(c, s, i)
    ensures Free(c, ToSet(s)) != [] && Free(c, ToSet(s))[0] == Delta(c.First(), i)
  {
    GapAbsent(c, s, i);
    forall y: Address | c.First() <= y < c.First() + i
      ensures y in s
    {
      assert s[y - c.First()] == Delta(c.First(), y - c.First());
    }
    FreeHead(c, ToSet(s), c.First() + i);
  }

  lemma GapFilled(c: Cidr, s: seq<Address>, i: nat)
    requires Tracks(c, s) && GapAt(c, s, i)
    ensures var x := Delta(c.First(), i);
            Tracks(c, s[..i] + [x] + s[i..]) && ToSet(s[..i] + [x] + s[i..]) == ToSet(s) + {x}
  {
    var x := Delta(c.First(), i);
    GapAbsent(c, s, i);
    assert i > 0 ==> s[i - 1] == Delta(c.First(), i - 1) < x by { c.Bounds(); }
    InsertInOrder(s, i, x);
    InsertedAt(s, i, x);
    var s' := s[..i] + [x] + s[i..];
    forall k | 0 <= k < |s'|
      ensures c.Contains(s'[k])
    {
      assert s'[k] in ToSet(s');
    }
    assert c.Last() in ToSet(s');
  }

  /** `ip` is the least free address of the block, and `after` tracks the addresses of `before` and `ip`. */
  ghost predicate Took(c: Cidr, before: seq<Address>, after: seq<Address>, ip: Address) {
    && Tracks(c, after)
    && TookLeast(c, before, after, ip)
  }

  ghost predicate TookLeast(c: Cidr, before: seq<Address>, after: seq<Address>, ip: Address) {
    var free := Free(c, ToSet(before));
    free != [] && ip == free[0] && ToSet(after) == ToSet(before) + {ip}
  }

  ghost predicate Exhausted(c: Cidr, taken: seq<Address>) {
    Free(c, ToSet(taken)) == []
  }

  lemma TookHead(c: Cidr, before: seq<Address>, after: seq<Address>, ip: Address)
    requires Took(c, before, after, ip)
    ensures c.Contains(ip) && ip !in before
    ensures Free(c, ToSet(after)) == Free(c, ToSet(before))[1..]
  {
    FreeTail(c, ToSet(before));
  }

  lemma FullOutcome(c: Cidr, s: seq<Address>)
    requires |s| % SPACE == c.Size() % SPACE
    ensures Tracks(c, s) ==> Exhausted(c, s)
  {
    if Tracks(c, s) {
      TracksBounds(c, s);
      WholeBlock(c, s);
    }
  }

  lemma GapOutcome(c: Cidr, s: seq<Address>, i: nat)
    requires GapAt(c, s, i)
    ensures var x := Delta(c.First(), i);
            Tracks(c, s) ==> !Exhausted(c, s) && Took(c, s, s[..i] + [x] + s[i..], x)
  {
    if Tracks(c, s) {
      GapIsLeastFree(c, s, i);
      GapFilled(c, s, i);
    }
  }

  /** The search never falls off the end of a list the controller builds. */
  lemma NoGapOutcome(c: Cidr, s: seq<Address>)
    requires |s| % SPACE != c.Size() % SPACE
    requires forall j :: 0 <= j < |s| ==> s[j] == Delta(c.First(), j)
    ensures !Tracks(c, s)
  {
    if Tracks(c, s) {
      TracksBounds(c, s);
      GapExists(c, s);
    }
  }

  /** The insertion, whatever room the backing array of the list happens to have. */
  method InsertIP(taken: seq<Address>, i: nat, ip: Address) returns (r: seq<Address>)
    requires i < |taken|
    ensures r == taken[..i] + [ip] + taken[i..]
  {
    var spare: nat :| 0 <= spare;
    var buffer := new Address[|taken| + spare]((k: int) => if 0 <= k < |taken| then taken[k] else 0);
    assert buffer[..|taken|] == taken;
    assert buffer[..i] == taken[..i] && buffer[i..|taken|] == taken[i..];
    var inserted := Slices.InsertAt(buffer, |taken|, i, ip);
    r := inserted[..|taken| + 1];
  }

  /** The first address of the block that is out of step with the list, and the list with it put in place. */
  method GetNextAvailableIP(c: Cidr, taken: seq<Address>)
    returns (r: Result<(Address, seq<Address>), AllocationError>)
    ensures r.Success? ==> exists i: nat :: GapAt(c, taken, i) && r.value.0 == Delta(c.First(), i)
                                    && r.value.1 == taken[..i] + [r.value.0] + taken[i..]
    ensures Tracks(c, taken) ==>
              if Exhausted(c, taken) then r == Failure(NoMoreAddresses(c))
              else r.Success? && Took(c, taken, r.value.1, r.value.0)
  {
    if |taken| % SPACE == c.Size() % SPACE {
      FullOutcome(c, taken);
      return Failure(NoMoreAddresses(c));
    }
    for i := 0 to |taken|
      invariant forall j :: 0 <= j < i ==> taken[j] == Delta(c.First(), j)
    {
      var ip := Delta(c.First(), i);
      if taken[i] != ip {
        GapOutcome(c, taken, i);
        var inserted := InsertIP(taken, i, ip);
        return Success((ip, inserted));
      }
    }
    NoGapOutcome(c, taken);
    return Failure(NeverHere);
  }

  /** The used addresses of every block, updated in place from one namespace to the next. */
  class UsedAddresses {
    var byCidr: map<Cidr, seq<Address>>

    ghost predicate Valid()
      reads this
    {
      forall c :: c in byCidr ==> Tracks(c, byCidr[c])
    }

    constructor (byCidr: map<Cidr, seq<Address>>)
      ensures this.byCidr == byCidr
    {
      this.byCidr := byCidr;
    }

    /** One address for every block. It succeeds exactly when no block is exhausted, whatever the order of the
        blocks, and then each block gives its least free address and keeps the others. */
    method GetNextAvailableIPs() returns (r: Result<map<Cidr, Address>, AllocationError>)
      requires Valid()
      modifies this
      ensures Valid() && byCidr.Keys == old(byCidr.Keys)
      ensures r.Success? <==> forall c :: c in old(byCidr) ==> !Exhausted(c, old(byCidr)[c])
      ensures r.Failure? ==> r.error.NoMoreAddresses? && r.error.c in old(byCidr) && Exhausted(r.error.c, old(byCidr)[r.error.c])
      ensures r.Success? ==> r.value.Keys == old(byCidr.Keys)
      ensures r.Success? ==> forall c :: c in old(byCidr) ==> Took(c, old(byCidr)[c], byCidr[c], r.value[c])
    {
      hide Exhausted, TookLeast, Tracks;
      var assignedIPs: map<Cidr, Address> := map[];
      var todo := byCidr.Keys;
      while todo != {}
        invariant todo <= byCidr.Keys == old(byCidr.Keys)
        invariant Valid()
        invariant assignedIPs.Keys == byCidr.Keys - todo
        invariant forall c :: c in todo ==> byCidr[c] == old(byCidr)[c]
        invariant forall c :: c in assignedIPs ==> !Exhausted(c, old(byCidr)[c]) && Took(c, old(byCidr)[c], byCidr[c], assignedIPs[c])
      {
        var c :| c in todo;
        var next := GetNextAvailableIP(c, byCidr[c]);
        if next.Failure? {
          return Failure(next.error);
        }
        assignedIPs := assignedIPs[c := next.value.0];
        byCidr := byCidr[c := next.value.1];
        todo := todo - {c};
      }
      return Success(assignedIPs);
    }
  }
}
