/** IPv4 addresses as numbers below 2^32, and address blocks in prefix notation (section 3.1 of RFC 4632). */
module Addresses {
  import opened Words

  const SPACE: int := 0x1_0000_0000

  type Address = a: int | 0 <= a < SPACE

  type Prefix = p: nat | p <= 32

  /** A block as it is written in the resource: the address before the slash need not be the first of the block. */
  datatype Cidr = Cidr(base: Address, prefix: Prefix) {

    function HostBits(): nat {
      32 - prefix
    }

    /** The number of addresses in the block. */
    function Size(): nat {
      Pow2(HostBits())
    }

    function First(): nat {
      RoundDown(base, HostBits())
    }

    function Last(): int {
      First() + Size() - 1
    }

    predicate Contains(a: Address) {
      First() <= a <= Last()
    }

    ghost predicate Canonical() {
      base == First()
    }

    function NetMask(): nat {
      Mask(prefix, HostBits())
    }

    /** What the mask keeps of an address. */
    function Masked(a: Address): nat {
      And(a, NetMask(), prefix + HostBits())
    }

    /** The written address with every host bit set. */
    function Broadcast(): nat {
      Or(Not(NetMask(), prefix + HostBits()), base, prefix + HostBits())
    }

    lemma Bounds()
      ensures First() <= base <= Last() < SPACE
      ensures 1 <= Size() <= SPACE
    {
      WordSize(prefix);
      BlockFits(base, prefix, HostBits());
    }

    /** Masking the written address gives the first of the block, and masking decides membership. */
    lemma MaskDecides(a: Address)
      ensures Masked(base) == First()
      ensures Contains(a) <==> Masked(a) == Masked(base)
    {
      WordSize(prefix);
      AndMask(base, prefix, HostBits());
      AndMask(a, prefix, HostBits());
      SameBlock(a, base, HostBits());
    }

    /** The directed broadcast address (section 3.2.1.3 of RFC 1122) is the greatest of the block. */
    /** The addresses that agree in the prefix: the same quotient by the size, of which there are as many as prefixes. */
    lemma SamePrefix(a: Address)
      ensures Size() * Pow2(prefix) == SPACE
      ensures Contains(a) <==> a / Size() == base / Size()
      ensures Canonical() <==> base % Size() == 0
    {
      WordSize(prefix);
      SplitPower(prefix, HostBits());
      RoundDownIsQuotient(a, HostBits());
      RoundDownIsQuotient(base, HostBits());
      SameBlock(a, base, HostBits());
      SameQuotient(a, base, Size());
    }

    lemma BroadcastIsLast()
      ensures Broadcast() == Last() < SPACE
    {
      Bounds();
      WordSize(prefix);
      OrNotMask(base, prefix, HostBits());
    }
  }

  lemma WordSize(p: Prefix)
    ensures Pow2(p + (32 - p)) == SPACE
  {
    assert Pow2(8) == 0x100;
    assert Pow2(16) == 0x1_0000;
    assert Pow2(24) == 0x100_0000;
    assert Pow2(32) == 0x1_0000_0000;
    assert p + (32 - p) == 32;
  }

  /** Adding to an address, as 32-bit arithmetic does it. */
  function Delta(a: int, i: nat): Address
    requires 0 <= a
  {
    (a + i) % SPACE
  }

  ghost predicate Disjoint(c: Cidr, d: Cidr) {
    forall a: Address :: !(c.Contains(a) && d.Contains(a))
  }

  /** The blocks of one resource are listed once each and do not overlap. */
  ghost predicate DisjointBlocks(cidrs: seq<Cidr>) {
    forall i, j :: 0 <= i < j < |cidrs| ==> Disjoint(cidrs[i], cidrs[j])
  }
}
