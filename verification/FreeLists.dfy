/** The unused addresses of a block in ascending order: the reference against which the allocator is proved. */
module FreeLists {
  import opened Addresses
  import opened Collections

  /** The numbers of `[lo, hi)` outside `used`, in ascending order. */
  ghost function FreeFrom(lo: int, hi: int, used: set<Address>): seq<int>
    decreases hi - lo
  {
    if lo >= hi then []
    else if lo in used then FreeFrom(lo + 1, hi, used)
    else [lo] + FreeFrom(lo + 1, hi, used)
  }

  ghost function Free(c: Cidr, used: set<Address>): seq<int> {
    FreeFrom(c.First(), c.First() + c.Size(), used)
  }

  lemma {:induction false} FreeFromElements(lo: int, hi: int, used: set<Address>)
    requires 0 <= lo <= hi <= SPACE
    ensures StrictlyIncreasing(FreeFrom(lo, hi, used))
    ensures forall x :: x in FreeFrom(lo, hi, used) <==> lo <= x < hi && x !in used
    decreases hi - lo
  {
    if lo < hi {
      FreeFromElements(lo + 1, hi, used);
      var rest := FreeFrom(lo + 1, hi, used);
      assert forall i :: 0 <= i < |rest| ==> rest[i] in rest;
    }
  }

  /** A free list is determined by its elements, so it is the ascending list of the unused addresses. */
  lemma FreeElements(c: Cidr, used: set<Address>)
    ensures StrictlyIncreasing(Free(c, used))
    ensures forall x :: x in Free(c, used) <==> c.First() <= x <= c.Last() && x !in used
    ensures forall x :: x in Free(c, used) ==> 0 <= x < SPACE && c.Contains(x)
  {
    c.Bounds();
    FreeFromElements(c.First(), c.First() + c.Size(), used);
  }

  /** Using the least free address leaves the rest of the list. */
  lemma {:induction false} FreeFromTail(lo: int, hi: int, used: set<Address>)
    requires 0 <= lo <= hi <= SPACE
    requires FreeFrom(lo, hi, used) != []
    ensures var f := FreeFrom(lo, hi, used);
            0 <= f[0] < SPACE && FreeFrom(lo, hi, used + {f[0]}) == f[1..]
    decreases hi - lo
  {
    if lo < hi {
      var f := FreeFrom(lo, hi, used);
      if lo in used {
        FreeFromTail(lo + 1, hi, used);
      } else {
        FreeFromFrame(lo + 1, hi, used, used + {lo});
      }
    }
  }

  lemma {:induction false} FreeFromFrame(lo: int, hi: int, used: set<Address>, used': set<Address>)
    requires 0 <= lo <= hi <= SPACE
    requires forall x: Address :: lo <= x < hi ==> (x in used <==> x in used')
    ensures FreeFrom(lo, hi, used) == FreeFrom(lo, hi, used')
    decreases hi - lo
  {
    if lo < hi {
      FreeFromFrame(lo + 1, hi, used, used');
    }
  }

  lemma FreeTail(c: Cidr, used: set<Address>)
    requires Free(c, used) != []
    ensures var f := Free(c, used);
            0 <= f[0] < SPACE && c.Contains(f[0]) && f[0] !in used && Free(c, used + {f[0]}) == f[1..]
  {
    c.Bounds();
    FreeElements(c, used);
    assert Free(c, used)[0] in Free(c, used);
    FreeFromTail(c.First(), c.First() + c.Size(), used);
  }

  /** The head of the list is the least unused address. */
  lemma FreeHead(c: Cidr, used: set<Address>, x: Address)
    requires c.First() <= x <= c.Last() && x !in used
    requires forall y: Address :: c.First() <= y < x ==> y in used
    ensures Free(c, used) != [] && Free(c, used)[0] == x
  {
    FreeElements(c, used);
    c.Bounds();
    var f := Free(c, used);
    assert x in f;
    var i :| 0 <= i < |f| && f[i] == x;
    if i > 0 {
      assert f[0] in f;
    }
  }

  /** Every address is either used or free, so the free ones can be counted. */
  lemma {:induction false} FreeFromCount(lo: int, hi: int, used: set<Address>)
    requires 0 <= lo <= hi <= SPACE
    requires forall a :: a in used ==> lo <= a < hi
    ensures |FreeFrom(lo, hi, used)| + |used| == hi - lo
    decreases hi - lo
  {
    if lo == hi {
      assert used == {};
    } else {
      var rest := used - {lo};
      FreeFromCount(lo + 1, hi, rest);
      FreeFromFrame(lo + 1, hi, used, rest);
      if lo in used {
        assert used == rest + {lo};
      } else {
        assert used == rest;
      }
    }
  }

  lemma FreeCount(c: Cidr, used: set<Address>)
    requires forall a :: a in used ==> c.Contains(a)
    ensures |Free(c, used)| == c.Size() - |used|
  {
    c.Bounds();
    var lo, hi := c.First(), c.First() + c.Size();
    hide FreeFrom;
    assert forall a :: a in used ==> lo <= a < hi;
    FreeFromCount(lo, hi, used);
  }
}
