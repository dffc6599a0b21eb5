/** Lists without repetition, listings of sets in any order, and sorting. */
module Collections {

  datatype Result<+T, +E> = Success(value: T) | Failure(error: E)

  function ToSet<T(==)>(s: seq<T>): set<T> {
    set x | x in s
  }

  /** The elements of the list that are in the set. */
  function Among<T(==)>(s: seq<T>, t: set<T>): set<T> {
    set x | x in s && x in t
  }

  predicate NoDup<T(==)>(s: seq<T>) {
    forall i, j :: 0 <= i < j < |s| ==> s[i] != s[j]
  }

  ghost predicate StrictlyIncreasing(s: seq<int>) {
    forall i, j :: 0 <= i < j < |s| ==> s[i] < s[j]
  }

  function Get<K, V>(m: map<K, seq<V>>, k: K): seq<V> {
    if k in m then m[k] else []
  }

  lemma NoDupCardinality<T>(s: seq<T>)
    requires NoDup(s)
    ensures |ToSet(s)| == |s|
  {
    if s != [] {
      var init, last := s[..|s| - 1], s[|s| - 1];
      assert s == init + [last];
      assert ToSet(s) == ToSet(init) + {last};
      NoDupCardinality(init);
    }
  }

  lemma SubsetCardinality<T>(a: set<T>, b: set<T>)
    requires a <= b
    ensures |a| <= |b|
  {
    assert b == a + (b - a);
  }

  lemma ToSetSnoc<T>(s: seq<T>, x: T)
    ensures ToSet(s + [x]) == ToSet(s) + {x}
  {
    assert forall y :: y in s + [x] <==> y in s || y == x;
  }

  lemma ToSetAppend<T>(s: seq<T>, t: seq<T>)
    ensures ToSet(s + t) == ToSet(s) + ToSet(t)
  {
    assert forall y :: y in s + t <==> y in s || y in t;
  }

  /** A set listed in an order nobody promises. */
  method Listing<T(==)>(s: set<T>) returns (l: seq<T>)
    ensures NoDup(l) && ToSet(l) == s
  {
    l := [];
    var todo := s;
    while todo != {}
      invariant todo <= s
      invariant NoDup(l) && ToSet(l) == s - todo
    {
      var x :| x in todo;
      ToSetSnoc(l, x);
      l := l + [x];
      todo := todo - {x};
    }
  }

  function Insert(x: int, s: seq<int>): seq<int> {
    if s == [] || x <= s[0] then [x] + s else [s[0]] + Insert(x, s[1..])
  }

  ghost predicate Sorted(s: seq<int>) {
    forall i, j :: 0 <= i < j < |s| ==> s[i] <= s[j]
  }

  lemma {:induction false} InsertElements(x: int, s: seq<int>)
    ensures multiset(Insert(x, s)) == multiset(s) + multiset{x}
  {
    if s == [] || x <= s[0] {
    } else {
      InsertElements(x, s[1..]);
      assert s == [s[0]] + s[1..];
    }
  }

  lemma {:induction false} InsertSorts(x: int, s: seq<int>)
    requires Sorted(s)
    ensures Sorted(Insert(x, s))
  {
    if s == [] || x <= s[0] {
    } else {
      InsertSorts(x, s[1..]);
      InsertElements(x, s[1..]);
      AtLeast(Insert(x, s[1..]), s[1..], x, s[0]);
    }
  }

  lemma AtLeast(r: seq<int>, s: seq<int>, x: int, low: int)
    requires multiset(r) == multiset(s) + multiset{x}
    requires low <= x && forall i :: 0 <= i < |s| ==> low <= s[i]
    ensures forall i :: 0 <= i < |r| ==> low <= r[i]
  {
    forall i | 0 <= i < |r|
      ensures low <= r[i]
    {
      assert r[i] in multiset(r);
      assert r[i] in multiset(s) || r[i] == x;
    }
  }

  /** The library sort: the same numbers in ascending order. */
  method Sort(s: seq<int>) returns (r: seq<int>)
    ensures Sorted(r) && multiset(r) == multiset(s)
  {
    r := [];
    for i := 0 to |s|
      invariant Sorted(r) && multiset(r) == multiset(s[..i])
    {
      InsertSorts(s[i], r);
      InsertElements(s[i], r);
      assert s[..i + 1] == s[..i] + [s[i]];
      r := Insert(s[i], r);
    }
    assert s[..|s|] == s;
  }

  lemma SameElements(r: seq<int>, s: seq<int>)
    requires multiset(r) == multiset(s)
    ensures ToSet(r) == ToSet(s)
  {
    forall x
      ensures x in r <==> x in s
    {
      assert x in r <==> x in multiset(r);
      assert x in s <==> x in multiset(s);
    }
  }

  /** A sorted list that lists a set is strictly increasing. */
  lemma SortedNoDup(r: seq<int>, s: seq<int>)
    requires Sorted(r) && multiset(r) == multiset(s) && NoDup(s)
    ensures StrictlyIncreasing(r)
  {
    forall i, j | 0 <= i < j < |r|
      ensures r[i] < r[j]
    {
      if r[i] == r[j] {
        assert r == r[..i] + [r[i]] + r[i + 1..j] + [r[j]] + r[j + 1..];
        assert multiset(r)[r[i]] >= 2;
        CountNoDup(s, r[i]);
      }
    }
  }

  lemma CountNoDup<T>(s: seq<T>, x: T)
    requires NoDup(s)
    ensures multiset(s)[x] <= 1
  {
    if s != [] {
      var init, last := s[..|s| - 1], s[|s| - 1];
      assert s == init + [last];
      CountNoDup(init, x);
      if x == last {
        assert x !in init;
      }
    }
  }
}
