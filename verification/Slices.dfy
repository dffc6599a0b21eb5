/** Slices that share a backing array, as the append of the source uses them. */
module Slices {

  /** Appends to the slice `a[..n]`: in place while the backing array has room, on a copy otherwise. */
  method Append<T>(a: array<T>, n: nat, more: seq<T>) returns (b: array<T>)
    requires n <= a.Length
    modifies a
    ensures n + |more| <= b.Length
    ensures b[..n + |more|] == old(a[..n]) + more
    ensures if n + |more| <= a.Length then b == a && a[n + |more|..] == old(a[n + |more|..])
            else fresh(b) && a[..] == old(a[..])
  {
    var total := n + |more|;
    if total <= a.Length {
      for k := 0 to |more|
        invariant a[..n] == old(a[..n])
        invariant a[n..n + k] == more[..k]
        invariant a[total..] == old(a[total..])
      {
        a[n + k] := more[k];
        assert a[n..n + k + 1] == a[n..n + k] + [a[n + k]];
      }
      b := a;
      assert a[..total] == a[..n] + a[n..total];
    } else {
      var all := a[..n] + more;
      b := new T[total](i requires 0 <= i < total => all[i]);
      assert b[..total] == all;
    }
  }

  /** Inserts `x` at position `i` of the slice `a[..n]` by two appends. The second one may overwrite the very
      elements the first one was given; it is correct because the first one copied them. */
  method InsertAt<T>(a: array<T>, n: nat, i: nat, x: T) returns (b: array<T>)
    requires i < n <= a.Length
    modifies a
    ensures n + 1 <= b.Length
    ensures b[..n + 1] == old(a[..i]) + [x] + old(a[i..n])
    ensures b == a <==> n + 1 <= a.Length
  {
    var one := new T[1](_ => x);
    var tail := Append(one, 1, a[i..n]);
    ghost var copied := tail[..1 + (n - i)];
    assert copied == [x] + old(a[i..n]);
    b := Append(a, i, tail[..1 + (n - i)]);
    assert b[..i + |copied|] == old(a[..i]) + copied;
  }
}
