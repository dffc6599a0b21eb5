/** The same two phases on Azure, where a node's addresses are the list of IP configurations of its primary network
    interface, rebuilt and written back as a whole (azure.go). */
module Azure {
  import opened Addresses
  import opened Text
  import opened Collections

  datatype IPConfiguration = IPConfiguration(name: string, primary: bool, address: Option<Address>)

  predicate IsSecondary(x: IPConfiguration) {
    !x.primary && x.address.Some?
  }

  /** The addresses of the secondary configurations. */
  ghost function Secondary(configs: seq<IPConfiguration>): set<Address> {
    set x | x in configs && IsSecondary(x) :: x.address.value
  }

  predicate Names(x: IPConfiguration, addresses: set<Address>) {
    x.address.Some? && x.address.value in addresses
  }

  /** The configurations whose address is not among `gone`, in order. */
  ghost function Without(configs: seq<IPConfiguration>, gone: set<Address>): seq<IPConfiguration> {
    if configs == [] then []
    else Without(configs[..|configs| - 1], gone)
         + (if Names(configs[|configs| - 1], gone) then [] else [configs[|configs| - 1]])
  }

  /** The primary configurations and those without an address, in order. */
  ghost function Others(configs: seq<IPConfiguration>): seq<IPConfiguration> {
    if configs == [] then []
    else Others(configs[..|configs| - 1])
         + (if IsSecondary(configs[|configs| - 1]) then [] else [configs[|configs| - 1]])
  }

  /** No two configurations have the same address. */
  ghost predicate Distinct(configs: seq<IPConfiguration>) {
    forall i, j :: 0 <= i < j < |configs| && configs[i].address.Some? ==> configs[i].address != configs[j].address
  }

  ghost predicate NamesPrimary(configs: seq<IPConfiguration>, addresses: set<Address>) {
    exists x :: x in configs && x.primary && Names(x, addresses)
  }

  // ---------- the program ----------

  method CollectSecondary(configs: seq<IPConfiguration>) returns (l: seq<Address>)
    ensures ToSet(l) == Secondary(configs)
  {
    l := [];
    for i := 0 to |configs|
      invariant ToSet(l) == Secondary(configs[..i])
    {
      SecondarySnoc(configs[..i], configs[i]);
      assert configs[..i + 1] == configs[..i] + [configs[i]];
      if IsSecondary(configs[i]) {
        ToSetSnoc(l, configs[i].address.value);
        l := l + [configs[i].address.value];
      }
    }
    assert configs[..|configs|] == configs;
  }

  method RemoveUnNeeded(configs: seq<IPConfiguration>, target: set<Address>) returns (r: seq<IPConfiguration>)
    ensures r == Without(configs, Secondary(configs) - target)
  {
    var secondary := CollectSecondary(configs);
    var toBeRemoved := Listing(ToSet(secondary) - target);
    ghost var gone := Secondary(configs) - target;
    r := [];
    for i := 0 to |configs|
      invariant r == Without(configs[..i], gone)
    {
      var found := false;
      for j := 0 to |toBeRemoved|
        invariant found <==> exists k :: 0 <= k < j && configs[i].address == Some(toBeRemoved[k])
      {
        if configs[i].address == Some(toBeRemoved[j]) {
          found := true;
        }
      }
      assert forall a :: a in toBeRemoved <==> a in ToSet(toBeRemoved);
      assert found <==> Names(configs[i], gone);
      assert configs[..i + 1][..i] == configs[..i];
      if !found {
        r := r + [configs[i]];
      }
    }
    assert configs[..|configs|] == configs;
  }

  /** `r` is `configs` followed by one new secondary configuration for each of `addresses`. */
  ghost predicate Extended(configs: seq<IPConfiguration>, addresses: seq<Address>, r: seq<IPConfiguration>) {
    && |r| == |configs| + |addresses|
    && r[..|configs|] == configs
    && forall i :: 0 <= i < |addresses| ==>
         r[|configs| + i] == IPConfiguration("EgressIP" + FormatIP(addresses[i]), false, Some(addresses[i]))
  }

  /** `r` is `configs` followed by one new secondary configuration for each address of `target` that was missing. */
  ghost predicate Completed(configs: seq<IPConfiguration>, target: set<Address>, r: seq<IPConfiguration>) {
    exists added: seq<Address> :: NoDup(added) && ToSet(added) == target - Secondary(configs) && Extended(configs, added, r)
  }

  method AddNeeded(configs: seq<IPConfiguration>, target: set<Address>) returns (r: seq<IPConfiguration>)
    ensures Completed(configs, target, r)
  {
    var secondary := CollectSecondary(configs);
    var toBeAssigned := Listing(target - ToSet(secondary));
    r := configs;
    for i := 0 to |toBeAssigned|
      invariant Extended(configs, toBeAssigned[..i], r)
    {
      hide FormatIP;
      r := r + [IPConfiguration("EgressIP" + FormatIP(toBeAssigned[i]), false, Some(toBeAssigned[i]))];
    }
    assert toBeAssigned[..|toBeAssigned|] == toBeAssigned;
  }

  /** The new configurations have names of their own, as the interface requires. */
  lemma NamesDiffer(configs: seq<IPConfiguration>, added: seq<Address>, r: seq<IPConfiguration>, i: nat, j: nat)
    requires Extended(configs, added, r) && NoDup(added)
    requires |configs| <= i < j < |r|
    ensures r[i].name != r[j].name
  {
    var a, b := added[i - |configs|], added[j - |configs|];
    AddressText(FormatIP(a), a);
    AddressText(FormatIP(b), b);
    hide FormatIP, ParseIP;
    assert r[|configs| + (i - |configs|)].name == "EgressIP" + FormatIP(a);
    assert r[|configs| + (j - |configs|)].name == "EgressIP" + FormatIP(b);
    assert ("EgressIP" + FormatIP(a))[8..] == FormatIP(a) && ("EgressIP" + FormatIP(b))[8..] == FormatIP(b);
  }

  /** With distinct addresses, no primary and no address-less configuration is lost, and what is new is a secondary one
      of an address of the target. */
  lemma NothingLost(configs: seq<IPConfiguration>, target: set<Address>, r1: seq<IPConfiguration>, r2: seq<IPConfiguration>, x: IPConfiguration)
    requires Distinct(configs)
    requires r1 == Without(configs, Secondary(configs) - target)
    requires Completed(r1, target, r2)
    ensures x in configs && (x.primary || x.address == None || x.address.value in target) ==> x in r2
    ensures x in r2 && x !in configs ==> !x.primary && x.address.Some? && x.address.value in target
  {
    hide FormatIP, Extended, Without;
    var added: seq<Address> :| NoDup(added) && ToSet(added) == target - Secondary(r1) && Extended(r1, added, r2);
    WithoutElements(configs, Secondary(configs) - target);
    ExtendedBy(r1, added, r2, x);
    DistinctNoClash(configs);
    hide Distinct;
  }

  lemma ExtendedBy(configs: seq<IPConfiguration>, added: seq<Address>, r: seq<IPConfiguration>, x: IPConfiguration)
    requires Extended(configs, added, r)
    ensures x in configs ==> x in r
    ensures x in r && x !in configs ==> !x.primary && x.address.Some? && x.address.value in ToSet(added)
  {
    hide FormatIP;
    forall i | 0 <= i < |configs|
      ensures r[i] == configs[i]
    {
      assert r[..|configs|][i] == configs[i];
    }
    if x in configs {
      var i :| 0 <= i < |configs| && configs[i] == x;
      assert r[i] == x;
    }
    if x in r && x !in configs {
      var i :| 0 <= i < |r| && r[i] == x;
      assert r[|configs| + (i - |configs|)].address == Some(added[i - |configs|]);
    }
  }

  // ---------- the lists refine the sets ----------

  lemma SecondarySnoc(configs: seq<IPConfiguration>, x: IPConfiguration)
    ensures Secondary(configs + [x]) == Secondary(configs) + (if IsSecondary(x) then {x.address.value} else {})
  {
    assert forall y :: y in configs + [x] <==> y in configs || y == x;
  }

  lemma {:induction false} WithoutElements(configs: seq<IPConfiguration>, gone: set<Address>)
    ensures forall x :: x in Without(configs, gone) <==> x in configs && !Names(x, gone)
  {
    if configs != [] {
      WithoutElements(configs[..|configs| - 1], gone);
      assert configs == configs[..|configs| - 1] + [configs[|configs| - 1]];
    }
  }

  lemma ExtendedElements(configs: seq<IPConfiguration>, added: seq<Address>, r: seq<IPConfiguration>)
    requires Extended(configs, added, r)
    ensures Secondary(r) == Secondary(configs) + ToSet(added)
  {
    hide FormatIP;
    forall a
      ensures a in Secondary(r) <==> a in Secondary(configs) + ToSet(added)
    {
      if a in Secondary(r) {
        var i :| 0 <= i < |r| && IsSecondary(r[i]) && r[i].address.value == a;
        if i < |configs| {
          assert r[i] == configs[i] && configs[i] in configs;
        } else {
          assert r[|configs| + (i - |configs|)].address == Some(added[i - |configs|]);
        }
      }
      if a in Secondary(configs) {
        var i :| 0 <= i < |configs| && IsSecondary(configs[i]) && configs[i].address.value == a;
        assert r[i] == configs[i] && r[i] in r;
      }
      if a in added {
        var i :| 0 <= i < |added| && added[i] == a;
        assert r[|configs| + i] in r;
      }
    }
  }

  /** The first phase is the set step of a removal, the second that of an assignment, and together they leave the
      target on the interface, for every list of configurations. */
  lemma SameAsSets(configs: seq<IPConfiguration>, target: set<Address>, r1: seq<IPConfiguration>, r2: seq<IPConfiguration>)
    requires r1 == Without(configs, Secondary(configs) - target)
    requires Completed(r1, target, r2)
    ensures Secondary(r1) == Secondary(configs) - (Secondary(configs) - target)
    ensures Secondary(r2) == Secondary(r1) + (target - Secondary(configs))
    ensures Secondary(r2) == target
  {
    hide Extended;
    var added: seq<Address> :| NoDup(added) && ToSet(added) == target - Secondary(r1) && Extended(r1, added, r2);
    WithoutElements(configs, Secondary(configs) - target);
    ExtendedElements(r1, added, r2);
    assert target - Secondary(r1) == target - Secondary(configs);
  }

  /** So at the end the addresses of configurations that are not primary are those of the target. */
  lemma EndsAtTarget(configs: seq<IPConfiguration>, target: set<Address>, r1: seq<IPConfiguration>, r2: seq<IPConfiguration>, a: Address)
    requires r1 == Without(configs, Secondary(configs) - target)
    requires Completed(r1, target, r2)
    ensures a in target <==> exists x :: x in r2 && !x.primary && x.address == Some(a)
  {
    SameAsSets(configs, target, r1, r2);
    hide Without, Completed;
    assert a in Secondary(r2) <==> exists x :: x in r2 && IsSecondary(x) && x.address.value == a;
    if x :| x in r2 && !x.primary && x.address == Some(a) {
      assert IsSecondary(x);
    }
  }

  lemma {:induction false} OthersExtended(configs: seq<IPConfiguration>, added: seq<Address>, r: seq<IPConfiguration>)
    requires Extended(configs, added, r)
    ensures Others(r) == Others(configs)
    decreases |added|
  {
    hide FormatIP;
    if added == [] {
      assert r == configs;
    } else {
      var n := |added| - 1;
      OthersExtended(configs, added[..n], r[..|r| - 1]);
      assert r[|configs| + n].address == Some(added[n]) && IsSecondary(r[|configs| + n]);
      assert |configs| + n == |r| - 1;
    }
  }

  lemma {:induction false} OthersWithout(configs: seq<IPConfiguration>, gone: set<Address>)
    ensures |Others(Without(configs, gone))| <= |Others(configs)|
    ensures !NamesPrimary(configs, gone) ==> Others(Without(configs, gone)) == Others(configs)
    ensures NamesPrimary(configs, gone) ==> |Others(Without(configs, gone))| < |Others(configs)|
  {
    if configs != [] {
      var init, last := configs[..|configs| - 1], configs[|configs| - 1];
      assert configs == init + [last];
      OthersWithout(init, gone);
      assert NamesPrimary(configs, gone) <==> NamesPrimary(init, gone) || (last.primary && Names(last, gone));
      if !Names(last, gone) {
        var w := Without(configs, gone);
        assert w == Without(init, gone) + [last];
        assert w[..|w| - 1] == Without(init, gone);
        assert Others(w) == Others(Without(init, gone)) + (if IsSecondary(last) then [] else [last]);
      } else {
        assert Without(configs, gone) == Without(init, gone);
      }
      assert Others(configs) == Others(init) + (if IsSecondary(last) then [] else [last]);
    }
  }

  /** The primary and address-less configurations survive, in order, exactly when no surplus secondary address is
      also that of a primary configuration; distinct addresses guarantee it. */
  lemma OthersKept(configs: seq<IPConfiguration>, target: set<Address>, r1: seq<IPConfiguration>, r2: seq<IPConfiguration>)
    requires r1 == Without(configs, Secondary(configs) - target)
    requires Completed(r1, target, r2)
    ensures Others(r2) == Others(configs) <==> !NamesPrimary(configs, Secondary(configs) - target)
    ensures Distinct(configs) ==> Others(r2) == Others(configs)
  {
    var gone := Secondary(configs) - target;
    OthersWithout(configs, gone);
    hide Extended;
    var added: seq<Address> :| NoDup(added) && ToSet(added) == target - Secondary(r1) && Extended(r1, added, r2);
    OthersExtended(r1, added, r2);
    if Distinct(configs) {
      DistinctNoClash(configs);
    }
  }

  /** With distinct addresses no secondary address is that of a primary configuration. */
  lemma DistinctNoClash(configs: seq<IPConfiguration>)
    requires Distinct(configs)
    ensures !NamesPrimary(configs, Secondary(configs))
  {
    forall i, j | 0 <= i < |configs| && 0 <= j < |configs| && configs[i].primary && IsSecondary(configs[j])
      ensures configs[i].address != configs[j].address
    {
      assert i != j;
    }
  }

  lemma {:induction false} WithoutDistinct(configs: seq<IPConfiguration>, gone: set<Address>)
    requires Distinct(configs)
    ensures Distinct(Without(configs, gone))
  {
    if configs != [] {
      var init, last := configs[..|configs| - 1], configs[|configs| - 1];
      WithoutDistinct(init, gone);
      WithoutElements(init, gone);
      assert forall x :: x in init && x.address.Some? ==> x.address != last.address by {
        assert forall i :: 0 <= i < |init| ==> init[i] == configs[i];
      }
      var w := Without(init, gone);
      assert forall i :: 0 <= i < |w| ==> w[i] in w;
    }
  }

  /** Distinct addresses stay distinct exactly when the target avoids the addresses of primary configurations. */
  lemma DistinctKept(configs: seq<IPConfiguration>, target: set<Address>, r1: seq<IPConfiguration>, r2: seq<IPConfiguration>)
    requires Distinct(configs)
    requires r1 == Without(configs, Secondary(configs) - target)
    requires Completed(r1, target, r2)
    ensures Distinct(r2) <==> !NamesPrimary(configs, target)
  {
    hide FormatIP, Extended, Without;
    var added: seq<Address> :| NoDup(added) && ToSet(added) == target - Secondary(r1) && Extended(r1, added, r2);
    if NamesPrimary(configs, target) {
      ClashShows(configs, target, r1, added, r2);
    } else {
      NoClashShows(configs, target, r1, added, r2);
    }
  }

  lemma NoClashShows(configs: seq<IPConfiguration>, target: set<Address>, r1: seq<IPConfiguration>,
                     added: seq<Address>, r2: seq<IPConfiguration>)
    requires Distinct(configs) && !NamesPrimary(configs, target)
    requires r1 == Without(configs, Secondary(configs) - target)
    requires NoDup(added) && ToSet(added) == target - Secondary(r1) && Extended(r1, added, r2)
    ensures Distinct(r2)
  {
    hide FormatIP, Without;
    WithoutDistinct(configs, Secondary(configs) - target);
    WithoutElements(configs, Secondary(configs) - target);
    forall i, j | 0 <= i < j < |r2| && r2[i].address.Some?
      ensures r2[i].address != r2[j].address
    {
      if j < |r1| {
        assert r2[i] == r1[i] && r2[j] == r1[j];
      } else {
        var a := added[j - |r1|];
        assert r2[|r1| + (j - |r1|)].address == Some(a);
        assert a in ToSet(added);
        if i < |r1| {
          assert r2[i] == r1[i] && r1[i] in configs;
          assert r1[i].primary ==> !Names(r1[i], target);
          assert !r1[i].primary ==> r1[i].address.value in Secondary(r1) by { assert r1[i] in r1; }
        } else {
          assert r2[|r1| + (i - |r1|)].address == Some(added[i - |r1|]);
        }
      }
    }
  }

  lemma ClashShows(configs: seq<IPConfiguration>, target: set<Address>, r1: seq<IPConfiguration>,
                   added: seq<Address>, r2: seq<IPConfiguration>)
    requires Distinct(configs) && NamesPrimary(configs, target)
    requires r1 == Without(configs, Secondary(configs) - target)
    requires ToSet(added) == target - Secondary(r1) && Extended(r1, added, r2)
    ensures !Distinct(r2)
  {
    hide FormatIP;
    WithoutElements(configs, Secondary(configs) - target);
    WithoutDistinct(configs, Secondary(configs) - target);
    var x :| x in configs && x.primary && Names(x, target);
    assert x in r1;
    var a := x.address.value;
    var i :| 0 <= i < |r1| && r1[i] == x;
    assert r2[i] == x;
    DistinctNoClash(r1);
    assert a in ToSet(added);
    var j :| 0 <= j < |added| && added[j] == a;
    assert r2[|r1| + j].address == Some(a);
  }
}
