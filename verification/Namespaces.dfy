/** Reading the addresses of annotated namespaces and giving addresses to the others
    (namespace.go, getReferringNamespaces and sortIPsByCIDR; node.go, getNodesIPsByCIDR; ipam.go, assignIPsToNamespaces). */
module Namespaces {
  import opened Addresses
  import opened Text
  import opened Collections
  import opened FreeLists
  import opened Allocation
  import opened Cluster

  // ---------- what is read ----------

  predicate Refers(ns: Namespace, ipam: string) {
    ns.egressipam == Some(ipam)
  }

  /** Splits the namespaces that refer to the resource into those with addresses and those without. */
  method GetReferringNamespaces(all: map<string, Namespace>, ipam: string)
    returns (unassigned: seq<Namespace>, annotated: seq<Namespace>)
    requires forall n :: n in all ==> all[n].name == n
    ensures forall ns :: ns in unassigned <==> ns.name in all && all[ns.name] == ns && ns.egressipam == Some(ipam) && ns.egressips.None?
    ensures forall ns :: ns in annotated <==> ns.name in all && all[ns.name] == ns && ns.egressipam == Some(ipam) && ns.egressips.Some?
    ensures forall i, j :: 0 <= i < j < |unassigned| ==> unassigned[i].name != unassigned[j].name
    ensures forall i, j :: 0 <= i < j < |annotated| ==> annotated[i].name != annotated[j].name
  {
    unassigned, annotated := [], [];
    var todo := all.Keys;
    while todo != {}
      invariant todo <= all.Keys
      invariant forall ns :: ns in unassigned <==> ns.name in all.Keys - todo && all[ns.name] == ns && Refers(ns, ipam) && ns.egressips.None?
      invariant forall ns :: ns in annotated <==> ns.name in all.Keys - todo && all[ns.name] == ns && Refers(ns, ipam) && ns.egressips.Some?
      invariant forall i, j :: 0 <= i < j < |unassigned| ==> unassigned[i].name != unassigned[j].name
      invariant forall i, j :: 0 <= i < j < |annotated| ==> annotated[i].name != annotated[j].name
    {
      var n :| n in todo;
      var ns := all[n];
      if Refers(ns, ipam) {
        if ns.egressips.Some? {
          assert forall i :: 0 <= i < |annotated| ==> annotated[i] in annotated;
          annotated := annotated + [ns];
        } else {
          assert forall i :: 0 <= i < |unassigned| ==> unassigned[i] in unassigned;
          unassigned := unassigned + [ns];
        }
      }
      todo := todo - {n};
    }
  }

  /** The annotation position by position: the address that can be read there, if any. */
  function Positions(ns: Namespace): seq<Option<Address>> {
    if ns.egressips.None? then []
    else
      var parts := Split(ns.egressips.value, ',');
      seq(|parts|, i requires 0 <= i < |parts| => ParseIP(parts[i]))
  }

  /** What is wrong with position `i`, which is meant for block number `i`. */
  function ProblemAt(ps: seq<Option<Address>>, cidrs: seq<Cidr>, i: nat): Option<Error>
    requires i < |cidrs|
  {
    if i >= |ps| then Some(IndexOutOfRange)
    else if ps[i].None? then Some(CannotParse)
    else if !cidrs[i].Contains(ps[i].value) then Some(OutsideBlock)
    else None
  }

  ghost predicate FitsBlocks(ps: seq<Option<Address>>, cidrs: seq<Cidr>) {
    forall i :: 0 <= i < |cidrs| ==> ProblemAt(ps, cidrs, i) == None
  }

  ghost predicate FirstProblem(ps: seq<Option<Address>>, cidrs: seq<Cidr>, e: Error) {
    exists i :: 0 <= i < |cidrs| && ProblemAt(ps, cidrs, i) == Some(e)
                && forall j :: 0 <= j < i ==> ProblemAt(ps, cidrs, j) == None
  }

  /** Every block has an address at its own position. */
  ghost predicate WellAnnotated(ns: Namespace, cidrs: seq<Cidr>) {
    ns.egressips.Some? ==> FitsBlocks(Positions(ns), cidrs)
  }

  /** The addresses that the first `i` positions hold for block `c`. */
  ghost function ReadRow(ps: seq<Option<Address>>, cidrs: seq<Cidr>, i: nat, c: Cidr): seq<Address>
    requires i <= |cidrs|
  {
    if i == 0 then []
    else ReadRow(ps, cidrs, i - 1, c)
         + (if cidrs[i - 1] == c && i - 1 < |ps| && ps[i - 1].Some? then [ps[i - 1].value] else [])
  }

  /** The annotations of the namespaces, position by position. */
  ghost function Rows(annotated: seq<Namespace>): seq<seq<Option<Address>>> {
    seq(|annotated|, k requires 0 <= k < |annotated| => Positions(annotated[k]))
  }

  /** The addresses that the first `n` rows hold for block `c`. */
  ghost function ReadFirst(rows: seq<seq<Option<Address>>>, n: nat, cidrs: seq<Cidr>, c: Cidr): seq<Address>
    requires n <= |rows|
  {
    if n == 0 then []
    else ReadFirst(rows, n - 1, cidrs, c) + ReadRow(rows[n - 1], cidrs, |cidrs|, c)
  }

  ghost function ReadAll(annotated: seq<Namespace>, cidrs: seq<Cidr>, c: Cidr): seq<Address> {
    ReadFirst(Rows(annotated), |annotated|, cidrs, c)
  }

  lemma OneMorePosition(ps: seq<Option<Address>>, cidrs: seq<Cidr>, i: nat, c: Cidr)
    requires i < |cidrs| && ProblemAt(ps, cidrs, i) == None
    ensures i < |ps| && ps[i].Some?
    ensures ReadRow(ps, cidrs, i + 1, c) == ReadRow(ps, cidrs, i, c) + (if c == cidrs[i] then [ps[i].value] else [])
  {
  }

  lemma NoPositionRead(ps: seq<Option<Address>>, cidrs: seq<Cidr>)
    ensures forall c :: ReadRow(ps, cidrs, 0, c) == []
  {
  }

  /** One namespace of the loop below: appends its addresses block by block. */
  method ReadNamespace(ps: seq<Option<Address>>, cidrs: seq<Cidr>, before: map<Cidr, seq<Address>>)
    returns (r: Result<map<Cidr, seq<Address>>, Error>)
    requires before.Keys == ToSet(cidrs)
    ensures r.Success? <==> FitsBlocks(ps, cidrs)
    ensures r.Success? ==> r.value.Keys == before.Keys
                           && forall c :: c in before ==> r.value[c] == before[c] + ReadRow(ps, cidrs, |cidrs|, c)
    ensures r.Failure? ==> FirstProblem(ps, cidrs, r.error)
  {
    hide ReadRow, ProblemAt;
    NoPositionRead(ps, cidrs);
    var byCidr := before;
    for i := 0 to |cidrs|
      invariant byCidr.Keys == before.Keys
      invariant forall j :: 0 <= j < i ==> ProblemAt(ps, cidrs, j) == None
      invariant forall c :: c in byCidr ==> byCidr[c] == before[c] + ReadRow(ps, cidrs, i, c)
    {
      var problem := ProblemAt(ps, cidrs, i);
      if problem.Some? {
        return Failure(problem.value);
      }
      var c := cidrs[i];
      OneMorePosition(ps, cidrs, i, c);
      forall d
        ensures ReadRow(ps, cidrs, i + 1, d) == ReadRow(ps, cidrs, i, d) + (if d == c then [ps[i].value] else [])
      {
        OneMorePosition(ps, cidrs, i, d);
      }
      byCidr := byCidr[c := byCidr[c] + [ps[i].value]];
    }
    return Success(byCidr);
  }

  /** A namespace without the annotation is passed over. */
  method ReadIfAnnotated(ns: Namespace, cidrs: seq<Cidr>, before: map<Cidr, seq<Address>>)
    returns (r: Result<map<Cidr, seq<Address>>, Error>)
    requires before.Keys == ToSet(cidrs)
    ensures r.Success? <==> WellAnnotated(ns, cidrs)
    ensures r.Success? ==> r.value.Keys == before.Keys
                           && forall c :: c in before ==> r.value[c] == before[c] + ReadRow(Positions(ns), cidrs, |cidrs|, c)
    ensures r.Failure? ==> FirstProblem(Positions(ns), cidrs, r.error)
  {
    if ns.egressips.Some? {
      r := ReadNamespace(Positions(ns), cidrs, before);
    } else {
      assert Positions(ns) == [];
      NothingRead(cidrs, |cidrs|);
      r := Success(before);
    }
  }

  method SortIPsByCIDR(cidrs: seq<Cidr>, annotated: seq<Namespace>)
    returns (r: Result<map<Cidr, seq<Address>>, Error>, ghost read: nat)
    ensures read <= |annotated| && forall j :: 0 <= j < read ==> WellAnnotated(annotated[j], cidrs)
    ensures r.Success? ==> read == |annotated|
    ensures r.Success? ==> r.value.Keys == ToSet(cidrs)
    ensures r.Success? ==> forall c :: c in r.value ==> r.value[c] == ReadAll(annotated, cidrs, c)
    ensures r.Failure? ==> read < |annotated| && !WellAnnotated(annotated[read], cidrs)
                           && FirstProblem(Positions(annotated[read]), cidrs, r.error)
  {
    hide ReadRow, Positions, WellAnnotated, FirstProblem;
    var byCidr: map<Cidr, seq<Address>> := map c | c in cidrs :: [];
    read := 0;
    for k := 0 to |annotated|
      invariant read == k
      invariant byCidr.Keys == ToSet(cidrs)
      invariant forall j :: 0 <= j < k ==> WellAnnotated(annotated[j], cidrs)
      invariant forall c :: c in byCidr ==> byCidr[c] == ReadFirst(Rows(annotated), k, cidrs, c)
    {
      var next := ReadIfAnnotated(annotated[k], cidrs, byCidr);
      if next.Failure? {
        return Failure(next.error), k;
      }
      assert Rows(annotated)[k] == Positions(annotated[k]);
      byCidr := next.value;
      read := k + 1;
    }
    return Success(byCidr), |annotated|;
  }

  lemma {:induction false} NothingRead(cidrs: seq<Cidr>, i: nat)
    requires i <= |cidrs|
    ensures forall c :: ReadRow([], cidrs, i, c) == []
  {
    if i > 0 {
      NothingRead(cidrs, i - 1);
    }
  }

  /** Position `j` is of block `c` and holds `a`. */
  ghost predicate Holds(ps: seq<Option<Address>>, cidrs: seq<Cidr>, j: nat, c: Cidr, a: Address) {
    j < |cidrs| && cidrs[j] == c && j < |ps| && ps[j] == Some(a)
  }

  lemma {:induction false} ReadRowElements(ps: seq<Option<Address>>, cidrs: seq<Cidr>, i: nat, c: Cidr, a: Address)
    requires i <= |cidrs|
    ensures a in ReadRow(ps, cidrs, i, c) <==> exists j: nat :: j < i && Holds(ps, cidrs, j, c, a)
  {
    if i > 0 {
      ReadRowElements(ps, cidrs, i - 1, c, a);
      if Holds(ps, cidrs, i - 1, c, a) {
        assert a in ReadRow(ps, cidrs, i, c);
      }
    }
  }

  /** Some position of the row is of block `c` and holds `a`. */
  ghost predicate Carries(ps: seq<Option<Address>>, cidrs: seq<Cidr>, c: Cidr, a: Address) {
    exists j: nat :: j < |cidrs| && Holds(ps, cidrs, j, c, a)
  }

  ghost predicate CarriedByFirst(rows: seq<seq<Option<Address>>>, n: nat, cidrs: seq<Cidr>, c: Cidr, a: Address)
    requires n <= |rows|
  {
    exists k: nat :: k < n && Carries(rows[k], cidrs, c, a)
  }

  /** An address is read for a block exactly when some row carries it there. */
  lemma {:induction false} ReadFirstElements(rows: seq<seq<Option<Address>>>, n: nat, cidrs: seq<Cidr>, c: Cidr, a: Address)
    requires n <= |rows|
    ensures a in ReadFirst(rows, n, cidrs, c) <==> CarriedByFirst(rows, n, cidrs, c, a)
  {
    if n == 0 {
      assert ReadFirst(rows, n, cidrs, c) == [];
      hide Carries;
    } else {
      hide Carries, ReadRow, CarriedByFirst;
      var before, row := ReadFirst(rows, n - 1, cidrs, c), ReadRow(rows[n - 1], cidrs, |cidrs|, c);
      assert ReadFirst(rows, n, cidrs, c) == before + row;
      hide ReadFirst;
      ReadRowCarries(rows[n - 1], cidrs, c, a);
      ReadFirstElements(rows, n - 1, cidrs, c, a);
      CarriedByOneMore(rows, n, cidrs, c, a);
    }
  }

  lemma ReadRowCarries(ps: seq<Option<Address>>, cidrs: seq<Cidr>, c: Cidr, a: Address)
    ensures a in ReadRow(ps, cidrs, |cidrs|, c) <==> Carries(ps, cidrs, c, a)
  {
    ReadRowElements(ps, cidrs, |cidrs|, c, a);
  }

  lemma CarriedByOneMore(rows: seq<seq<Option<Address>>>, n: nat, cidrs: seq<Cidr>, c: Cidr, a: Address)
    requires 0 < n <= |rows|
    ensures CarriedByFirst(rows, n, cidrs, c, a) <==> CarriedByFirst(rows, n - 1, cidrs, c, a) || Carries(rows[n - 1], cidrs, c, a)
  {
    hide Carries;
  }

  /** An address is read for a block exactly when a namespace carries it there. */
  lemma ReadAllElements(annotated: seq<Namespace>, cidrs: seq<Cidr>, c: Cidr, a: Address)
    ensures a in ReadAll(annotated, cidrs, c)
       <==> exists k: nat :: k < |annotated| && Carries(Positions(annotated[k]), cidrs, c, a)
  {
    var rows := Rows(annotated);
    ReadFirstElements(rows, |annotated|, cidrs, c, a);
    hide Carries, Positions;
    assert forall k: nat :: k < |annotated| ==> rows[k] == Positions(annotated[k]);
  }
}
