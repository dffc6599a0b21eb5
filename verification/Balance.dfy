/** Distributing items one by one onto least-loaded nodes: every way to do it ends with the same loads, and no other
    distribution over the same initial loads does better. Loads are listed node by node. */
module Balance {

  function Sum(s: seq<nat>): nat {
    if s == [] then 0 else s[0] + Sum(s[1..])
  }

  function Max(s: seq<nat>): (m: nat)
    requires s != []
    ensures m in s && forall x :: x in s ==> x <= m
  {
    if |s| == 1 then s[0]
    else
      var m := Max(s[1..]);
      assert forall x :: x in s ==> x == s[0] || x in s[1..];
      if s[0] > m then s[0] else m
  }

  /** Nothing was taken away from any node. */
  ghost predicate Above(init: seq<nat>, loads: seq<nat>) {
    |init| == |loads| && forall i :: 0 <= i < |init| ==> init[i] <= loads[i]
  }

  /** A node that received an item ends at most one above any other node. */
  ghost predicate Balanced(init: seq<nat>, loads: seq<nat>) {
    Above(init, loads)
    && forall i, j :: 0 <= i < |init| && 0 <= j < |init| && loads[i] > init[i] ==> loads[i] <= loads[j] + 1
  }

  /** How much load there is above the level `t`, over all nodes. */
  function Over(s: seq<nat>, t: int): nat {
    if s == [] then 0 else (if s[0] > t then s[0] - t else 0) + Over(s[1..], t)
  }

  lemma {:induction false} OverPointwise(f: seq<nat>, g: seq<nat>, t: int)
    requires |f| == |g|
    requires forall i :: 0 <= i < |f| ==> f[i] <= t || f[i] <= g[i]
    ensures Over(f, t) <= Over(g, t)
  {
    if f != [] {
      OverPointwise(f[1..], g[1..], t);
    }
  }

  lemma {:induction false} OverAtLeast(s: seq<nat>, t: int)
    ensures Over(s, t) >= Sum(s) - |s| * t
    ensures (forall i :: 0 <= i < |s| ==> s[i] >= t) ==> Over(s, t) == Sum(s) - |s| * t
  {
    if s != [] {
      OverAtLeast(s[1..], t);
      assert |s| * t == |s[1..]| * t + t;
    }
  }

  lemma {:induction false} OverNone(s: seq<nat>, t: int)
    ensures Over(s, t) == 0 <==> forall i :: 0 <= i < |s| ==> s[i] <= t
  {
    if s != [] {
      OverNone(s[1..], t);
      assert forall i :: 1 <= i < |s| ==> s[i] == s[1..][i - 1];
    }
  }

  /** A balanced distribution of the same total has least load above every level at once. */
  lemma LeastOver(init: seq<nat>, f: seq<nat>, g: seq<nat>, t: int)
    requires Balanced(init, f) && Above(init, g) && Sum(f) == Sum(g)
    ensures Over(f, t) <= Over(g, t)
  {
    if i :| 0 <= i < |f| && f[i] > t && f[i] > init[i] {
      OverAtLeast(f, t);
      OverAtLeast(g, t);
    } else {
      OverPointwise(f, g, t);
    }
  }

  lemma MinMax(init: seq<nat>, f: seq<nat>, g: seq<nat>)
    requires Balanced(init, f) && Above(init, g) && Sum(f) == Sum(g) && f != []
    ensures Max(f) <= Max(g)
  {
    var t := Max(g);
    assert forall i :: 0 <= i < |g| ==> g[i] in g;
    LeastOver(init, f, g, t);
    OverNone(g, t);
    OverNone(f, t);
  }

  /** The loads can be counted from how much there is above each level. */
  lemma {:induction false} SecondDifference(s: seq<nat>, v: nat)
    ensures multiset(s)[v] == Over(s, v - 1) - 2 * Over(s, v) + Over(s, v + 1)
  {
    if s != [] {
      SecondDifference(s[1..], v);
      assert s == [s[0]] + s[1..];
    }
  }

  lemma Confluence(init: seq<nat>, f: seq<nat>, g: seq<nat>)
    requires Balanced(init, f) && Balanced(init, g) && Sum(f) == Sum(g)
    ensures multiset(f) == multiset(g)
  {
    forall v: nat
      ensures multiset(f)[v] == multiset(g)[v]
    {
      forall t
        ensures Over(f, t) == Over(g, t)
      {
        LeastOver(init, f, g, t);
        LeastOver(init, g, f, t);
      }
      SecondDifference(f, v);
      SecondDifference(g, v);
    }
  }
}
