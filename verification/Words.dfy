/** Bitwise arithmetic on unsigned machine words, bit by bit, and what it comes to in ordinary arithmetic. */
module Words {

  function Pow2(n: nat): (r: nat)
    ensures r >= 1
  {
    if n == 0 then 1 else 2 * Pow2(n - 1)
  }

  /** The bitwise conjunction of the low `width` bits of `a` and `b`. */
  function And(a: nat, b: nat, width: nat): nat
    decreases width
  {
    if width == 0 then 0
    else 2 * And(a / 2, b / 2, width - 1) + (if a % 2 == 1 && b % 2 == 1 then 1 else 0)
  }

  /** The bitwise disjunction of the low `width` bits of `a` and `b`. */
  function Or(a: nat, b: nat, width: nat): nat
    decreases width
  {
    if width == 0 then 0
    else 2 * Or(a / 2, b / 2, width - 1) + (if a % 2 == 1 || b % 2 == 1 then 1 else 0)
  }

  /** The bitwise complement of the low `width` bits of `a`. */
  function Not(a: nat, width: nat): nat
    decreases width
  {
    if width == 0 then 0
    else 2 * Not(a / 2, width - 1) + (if a % 2 == 1 then 0 else 1)
  }

  /** A netmask: `ones` set bits followed by `zeros` clear bits. */
  function Mask(ones: nat, zeros: nat): nat {
    if zeros > 0 then 2 * Mask(ones, zeros - 1)
    else if ones > 0 then 2 * Mask(ones - 1, 0) + 1
    else 0
  }

  /** The greatest multiple of `Pow2(zeros)` that is not above `b` (RoundDownIsMultiple, BlockFits). */
  function RoundDown(b: nat, zeros: nat): nat
    decreases zeros
  {
    if zeros == 0 then b else 2 * RoundDown(b / 2, zeros - 1)
  }

  /** Keeping only the prefix of an address rounds it down. */
  lemma {:induction false} AndMask(b: nat, ones: nat, zeros: nat)
    requires b < Pow2(ones + zeros)
    ensures And(b, Mask(ones, zeros), ones + zeros) == RoundDown(b, zeros)
    decreases ones + zeros
  {
    var m, w := Mask(ones, zeros), ones + zeros;
    if zeros > 0 {
      AndMask(b / 2, ones, zeros - 1);
      assert m / 2 == Mask(ones, zeros - 1);
    } else if ones > 0 {
      AndMask(b / 2, ones - 1, 0);
      assert m / 2 == Mask(ones - 1, 0);
      assert And(b, m, w) == 2 * And(b / 2, m / 2, w - 1) + b % 2;
    }
  }

  /** Setting every bit outside the prefix reaches the last address of the block. */
  lemma {:induction false} OrNotMask(b: nat, ones: nat, zeros: nat)
    requires b < Pow2(ones + zeros)
    ensures Or(Not(Mask(ones, zeros), ones + zeros), b, ones + zeros) == RoundDown(b, zeros) + Pow2(zeros) - 1
    decreases ones + zeros
  {
    var m, w := Mask(ones, zeros), ones + zeros;
    if zeros > 0 {
      OrNotMask(b / 2, ones, zeros - 1);
      assert Pow2(w) == 2 * Pow2(w - 1) && Pow2(zeros) == 2 * Pow2(zeros - 1);
      OrNotOneBit(m, Mask(ones, zeros - 1), 0, b, w);
    } else if ones > 0 {
      OrNotMask(b / 2, ones - 1, 0);
      OrNotOneBit(m, Mask(ones - 1, 0), 1, b, w);
    }
  }

  /** The lowest bit of the complement OR `b`. */
  lemma OrNotOneBit(m: nat, upper: nat, bit: nat, b: nat, w: nat)
    requires bit < 2 && m == 2 * upper + bit && w > 0
    ensures Or(Not(m, w), b, w) == 2 * Or(Not(upper, w - 1), b / 2, w - 1) + (if bit == 0 || b % 2 == 1 then 1 else 0)
  {
    assert m / 2 == upper && m % 2 == bit;
    var n := Not(m, w);
    assert n == 2 * Not(upper, w - 1) + (1 - bit);
    assert n / 2 == Not(upper, w - 1) && n % 2 == 1 - bit;
  }

  /** A block of `Pow2(zeros)` numbers that starts at a multiple of its size does not leave the word. */
  lemma {:induction false} BlockFits(b: nat, ones: nat, zeros: nat)
    requires b < Pow2(ones + zeros)
    ensures RoundDown(b, zeros) <= b < RoundDown(b, zeros) + Pow2(zeros) <= Pow2(ones + zeros)
    decreases zeros
  {
    if zeros > 0 {
      BlockFits(b / 2, ones, zeros - 1);
    }
  }

  /** Two numbers round down to the same multiple exactly when one is in the block of the other. */
  lemma {:induction false} SameBlock(a: nat, b: nat, zeros: nat)
    ensures RoundDown(a, zeros) == RoundDown(b, zeros)
       <==> RoundDown(b, zeros) <= a < RoundDown(b, zeros) + Pow2(zeros)
    decreases zeros
  {
    if zeros > 0 {
      SameBlock(a / 2, b / 2, zeros - 1);
    }
  }

  lemma {:induction false} RoundDownIsQuotient(b: nat, zeros: nat)
    ensures RoundDown(b, zeros) == b / Pow2(zeros) * Pow2(zeros)
  {
    var q := RoundDownIsMultiple(b, zeros);
    BlockBounds(b, zeros);
    QuotientUnique(b, Pow2(zeros), q);
  }

  lemma {:induction false} BlockBounds(b: nat, zeros: nat)
    ensures RoundDown(b, zeros) <= b < RoundDown(b, zeros) + Pow2(zeros)
    decreases zeros
  {
    if zeros > 0 {
      BlockBounds(b / 2, zeros - 1);
    }
  }

  lemma TimesMonotone(p: nat, a: nat, b: nat)
    ensures a <= b ==> p * a <= p * b
  {
    if a <= b {
      assert p * b == p * a + p * (b - a);
    }
  }

  lemma QuotientUnique(b: nat, p: nat, q: nat)
    requires p > 0 && p * q <= b < p * q + p
    ensures b / p == q
  {
    var k := b / p;
    assert b == p * k + b % p;
    TimesMonotone(p, k + 1, q);
    TimesMonotone(p, q + 1, k);
  }

  lemma {:induction false} SplitPower(m: nat, n: nat)
    ensures Pow2(n) * Pow2(m) == Pow2(m + n)
    decreases n
  {
    if n > 0 {
      SplitPower(m, n - 1);
      assert Pow2(n) * Pow2(m) == 2 * (Pow2(n - 1) * Pow2(m));
    }
  }

  lemma SameQuotient(a: nat, b: nat, p: nat)
    requires p > 0
    ensures a / p * p == b / p * p <==> a / p == b / p
    ensures b / p * p == b <==> b % p == 0
  {
    assert b == p * (b / p) + b % p;
    if a / p * p == b / p * p {
      QuotientUnique(a / p * p, p, a / p);
      QuotientUnique(b / p * p, p, b / p);
    }
  }

  lemma {:induction false} RoundDownIsMultiple(b: nat, zeros: nat) returns (q: nat)
    ensures RoundDown(b, zeros) == Pow2(zeros) * q
    decreases zeros
  {
    if zeros == 0 {
      q := b;
    } else {
      q := RoundDownIsMultiple(b / 2, zeros - 1);
      assert 2 * (Pow2(zeros - 1) * q) == (2 * Pow2(zeros - 1)) * q;
    }
  }
}
