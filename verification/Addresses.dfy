/** Network addresses without zones, IPv6 prefixes as 128-bit arithmetic, and the
    policy that limits runtime addresses to globally routed unicast space
    (ipv6_policy.go). */
module Addresses {
  import opened Ordered

  const TWO_32: nat := 0x1_0000_0000
  const TWO_128: nat := 0x1_0000_0000_0000_0000_0000_0000_0000_0000

  /** The weights of the first byte and of the first sixteen bits of an address. */
  const BYTE_UNIT: nat := 0x100_0000_0000_0000_0000_0000_0000_0000
  const WORD_UNIT: nat := 0x1_0000_0000_0000_0000_0000_0000_0000

  type Bits32 = n: nat | n < TWO_32
  type Bits128 = n: nat | n < TWO_128
  type Byte = n: nat | n < 256

  datatype Option<+T> = None | Some(value: T)

  datatype Result<+T, +E> = Ok(value: T) | Err(error: E)

  /** An address value: the zero value, an IPv4 address, or an IPv6 address as one number. */
  datatype NetAddr = Invalid | V4(v4: Bits32) | V6(v6: Bits128) {

    /** An IPv4-mapped IPv6 address (::ffff:a.b.c.d) becomes the IPv4 address it carries. */
    function Unmap(): NetAddr {
      if V6? && v6 / TWO_32 == 0xffff then V4(v6 % TWO_32) else this
    }

    /** The sixteen-byte form: an IPv4 address is written as its mapped address. */
    function Bits(): Bits128
      requires !Invalid?
    {
      if V4? then 0xffff * TWO_32 + v4 else v6
    }

    /** The tests for kinds of addresses look through the mapping. */
    predicate IsMulticast() {
      match Unmap()
      case Invalid => false
      case V4(v) => v / 0x1000_0000 == 0xe
      case V6(v) => v / BYTE_UNIT == 0xff
    }

    /** A position in the total order of addresses: shorter addresses first, then by value. */
    function Rank(): nat {
      match this
      case Invalid => 0
      case V4(v) => 1 + v
      case V6(v) => 1 + TWO_32 + v
    }
  }

  lemma RankInjective(a: NetAddr, b: NetAddr)
    ensures a.Rank() == b.Rank() ==> a == b
  {
  }

  // ---------------------------------------------------------------- powers of two

  function Pow2(k: nat): (r: nat)
    ensures r > 0
  {
    if k == 0 then 1 else 2 * Pow2(k - 1)
  }

  lemma {:induction false} Pow2Splits(j: nat, k: nat)
    ensures Pow2(j + k) == Pow2(j) * Pow2(k)
  {
    if j > 0 {
      Pow2Splits(j - 1, k);
    }
  }

  lemma Pow2Product(j: nat, k: nat, v: nat, w: nat)
    requires Pow2(j) == v && Pow2(k) == w
    ensures Pow2(j + k) == v * w
  {
    Pow2Splits(j, k);
  }

  // The powers that the address masks need. The exponents are multiples of a variable, so
  // that they are found by splitting and not by unrolling; the lemmas about addresses that
  // build on them are stated again without it.

  lemma Pow2Of4(one: nat)
    requires one == 1
    ensures Pow2(4 * one) == 16
  {
    assert Pow2(one) == 2;
    Pow2Product(1 * one, 1 * one, 0x2, 0x2);
    Pow2Product(2 * one, 2 * one, 0x4, 0x4);
  }

  lemma Pow2Of16(one: nat)
    requires one == 1
    ensures Pow2(16 * one) == 0x10000
  {
    Pow2Of4(one);
    Pow2Product(4 * one, 4 * one, 0x10, 0x10);
    Pow2Product(8 * one, 8 * one, 0x100, 0x100);
  }

  lemma Pow2Of28(one: nat)
    requires one == 1
    ensures Pow2(28 * one) == 0x1000_0000
  {
    Pow2Of16(one);
    Pow2Of4(one);
    Pow2Product(4 * one, 4 * one, 0x10, 0x10);
    Pow2Product(8 * one, 4 * one, 0x100, 0x10);
    Pow2Product(16 * one, 12 * one, 0x10000, 0x1000);
  }

  lemma Pow2Of48(one: nat)
    requires one == 1
    ensures Pow2(48 * one) == 0x1_0000_0000_0000
  {
    Pow2Of16(one);
    Pow2Product(16 * one, 16 * one, 0x10000, 0x10000);
    Pow2Product(32 * one, 16 * one, 0x100000000, 0x10000);
  }

  lemma Pow2Of96(one: nat)
    requires one == 1
    ensures Pow2(96 * one) == TWO_32 * TWO_32 * TWO_32
  {
    Pow2Of48(one);
    Pow2Product(48 * one, 48 * one, 0x1000000000000, 0x1000000000000);
  }

  lemma Pow2Of112(one: nat)
    requires one == 1
    ensures Pow2(112 * one) == WORD_UNIT
  {
    Pow2Of96(one);
    Pow2Of16(one);
    Pow2Product(96 * one, 16 * one, 0x1000000000000000000000000, 0x10000);
  }

  lemma Pow2Of118(one: nat)
    requires one == 1
    ensures Pow2(118 * one) == 0x40 * WORD_UNIT
  {
    Pow2Of112(one);
    Pow2Of4(one);
    assert Pow2(2 * one) == 4;
    Pow2Product(112 * one, 4 * one, 0x10000000000000000000000000000, 0x10);
    Pow2Product(116 * one, 2 * one, 0x100000000000000000000000000000, 0x4);
  }

  lemma Pow2Of120(one: nat)
    requires one == 1
    ensures Pow2(120 * one) == BYTE_UNIT
  {
    Pow2Of112(one);
    Pow2Of4(one);
    Pow2Product(4 * one, 4 * one, 0x10, 0x10);
    Pow2Product(112 * one, 8 * one, 0x10000000000000000000000000000, 0x100);
  }

  lemma Pow2Of121(one: nat)
    requires one == 1
    ensures Pow2(121 * one) == 2 * BYTE_UNIT
  {
    Pow2Of120(one);
  }

  lemma Pow2Of128(one: nat)
    requires one == 1
    ensures Pow2(128 * one) == TWO_128
  {
    Pow2Of112(one);
    Pow2Of16(one);
    Pow2Product(112 * one, 16 * one, 0x10000000000000000000000000000, 0x10000);
  }

  // ---------------------------------------------------------------- prefixes and sets

  /** x with the low bits under a power of two cleared, as a bit mask does it. */
  function ClearBelow(x: nat, unit: nat): (r: nat)
    requires unit > 0
    ensures r <= x
  {
    ModBound(x, unit);
    x - x % unit
  }

  lemma ModBound(x: nat, unit: nat)
    requires unit > 0
    ensures 0 <= x % unit <= x
  {
    assert x == (x / unit) * unit + x % unit;
  }

  datatype RawPrefix = RawPrefix(addr: Bits128, bits: nat)

  /** An IPv6 prefix as parsed: at most 128 bits, host bits not yet cleared. */
  type Prefix = p: RawPrefix | p.bits <= 128 witness RawPrefix(0, 0)

  /** The number of addresses under a prefix. */
  function Size(p: Prefix): nat {
    Pow2(128 - p.bits)
  }

  /** A prefix holds the addresses whose leading bits agree with its own. */
  predicate Holds(p: Prefix, a: Bits128) {
    a / Size(p) == p.addr / Size(p)
  }

  /** The prefix with its host bits cleared. */
  function Masked(p: Prefix): (q: Prefix)
    ensures q.bits == p.bits
  {
    RawPrefix(ClearBelow(p.addr, Size(p)), p.bits)
  }

  /** An inclusive address range, the element of an address set. */
  datatype Range = Range(first: nat, last: int)

  type IpSet = seq<Range>

  function RangeOf(p: Prefix): Range {
    var q := Masked(p);
    Range(q.addr, q.addr + Size(p) - 1)
  }

  predicate InRange(r: Range, a: Bits128) {
    r.first <= a <= r.last
  }

  /** Membership of an address set; an IPv4 or invalid address is in no IPv6 range. */
  predicate Contains(s: IpSet, a: NetAddr) {
    a.V6? && exists i :: 0 <= i < |s| && InRange(s[i], a.v6)
  }

  lemma SameQuotient(a: nat, b: nat, m: nat)
    requires m > 0
    ensures a / m == b / m <==> b - b % m <= a <= b - b % m + m - 1
  {
    assert b - b % m == (b / m) * m;
    if a / m == b / m {
      assert a == (a / m) * m + a % m;
    } else if a / m < b / m {
      assert (a / m + 1) * m <= (b / m) * m;
      assert a < (a / m + 1) * m;
    } else {
      assert (b / m + 1) * m <= (a / m) * m;
      assert a >= (a / m) * m;
    }
  }

  /** The range built from a prefix is the prefix: comparing leading bits and comparing
      against the masked first and last address are the same test. */
  lemma RangeIsPrefix(p: Prefix, a: Bits128)
    ensures InRange(RangeOf(p), a) <==> Holds(p, a)
    ensures Holds(Masked(p), a) <==> Holds(p, a)
  {
    var m := Size(p);
    SameQuotient(a, p.addr, m);
    SameQuotient(a, Masked(p).addr, m);
    SameQuotient(Masked(p).addr, p.addr, m);
  }

  lemma MulCancels(q: nat, n: nat, m: nat)
    requires q * m < n * m
    ensures q < n
  {
    assert (n - q) * m > 0;
  }

  lemma MulOrdered(a: nat, b: nat, m: nat)
    requires a <= b
    ensures a * m <= b * m
  {
    assert (b - a) * m >= 0;
  }

  lemma MulNext(q: nat, m: nat)
    ensures (q + 1) * m == q * m + m
  {
  }

  lemma QuotientBound(x: nat, m: nat, n: nat)
    requires m > 0 && x < n * m
    ensures x - x % m + m <= n * m
  {
    var q := x / m;
    assert x == q * m + x % m;
    MulCancels(q, n, m);
    MulOrdered(q + 1, n, m);
    MulNext(q, m);
  }

  lemma RangeEndsIn(p: Prefix, one: nat)
    requires one == 1
    ensures RangeOf(p).last < TWO_128
  {
    Pow2Splits(p.bits, 128 - p.bits);
    Pow2Of128(one);
    QuotientBound(p.addr, Size(p), Pow2(p.bits));
  }

  /** The last address of a prefix never leaves the 128-bit space. */
  lemma RangeInSpace(p: Prefix)
    ensures RangeOf(p).last < TWO_128
  {
    RangeEndsIn(p, 1);
  }

  // ---------------------------------------------------------------- the runtime policy

  function FirstByte(a: Bits128): nat { a / BYTE_UNIT }

  function FirstWord(a: Bits128): nat { a / WORD_UNIT }

  predicate IsPrivate(a: Bits128) { ClearBelow(FirstByte(a), 2) == 0xfc }

  predicate IsLinkLocal(a: Bits128) { ClearBelow(FirstWord(a), 64) == 0xfe80 }

  predicate IsGlobalUnicast(a: Bits128) {
    a != 0 && a != 1 && FirstByte(a) != 0xff && !IsLinkLocal(a)
  }

  /** IPv4 addresses that are not global unicast, or private: 0.0.0.0, 255.255.255.255,
      127.0.0.0/8, 224.0.0.0/4, 169.254.0.0/16, 10.0.0.0/8, 172.16.0.0/12 and 192.168.0.0/16. */
  predicate InternalV4(a: Bits32) {
    a == 0 || a == 0xffff_ffff || a / 0x100_0000 == 127 || a / 0x1000_0000 == 0xe || a / 0x1_0000 == 0xa9fe
    || a / 0x100_0000 == 10 || a / 0x10_0000 == 0xac1 || a / 0x1_0000 == 0xc0a8
  }

  /** ipv6_policy.go: the addresses a runtime source may have announced or answered. */
  predicate NeedsAnnouncement(a: NetAddr) {
    a.V6? && match a.Unmap()
             case V4(v) => !InternalV4(v)
             case _ => IsGlobalUnicast(a.v6) && !IsPrivate(a.v6) && !IsLinkLocal(a.v6)
  }

  const UNSPECIFIED: Prefix := RawPrefix(0, 128)
  const LOOPBACK: Prefix := RawPrefix(1, 128)
  const MULTICAST: Prefix := RawPrefix(0xff00_0000_0000_0000_0000_0000_0000_0000, 8)
  const LINK_LOCAL: Prefix := RawPrefix(0xfe80_0000_0000_0000_0000_0000_0000_0000, 10)
  const MAPPED_MULTICAST: Prefix := RawPrefix(0xffff_e000_0000, 100)
  const UNIQUE_LOCAL: Prefix := RawPrefix(0xfc00_0000_0000_0000_0000_0000_0000_0000, 7)

  /** The internal space: ::, ::1, ff00::/8, fe80::/10 and fc00::/7. */
  predicate Internal(a: Bits128) {
    Holds(UNSPECIFIED, a) || Holds(LOOPBACK, a) || Holds(MULTICAST, a)
    || Holds(LINK_LOCAL, a) || Holds(UNIQUE_LOCAL, a)
  }

  lemma HostPrefix(p: Prefix, a: Bits128)
    requires p.bits == 128
    ensures Holds(p, a) <==> a == p.addr
  {
  }

  lemma MulticastUnit(p: Prefix, a: Bits128, one: nat)
    requires p == MULTICAST && one == 1
    ensures Holds(p, a) <==> FirstByte(a) == 0xff
  {
    Pow2Of120(one);
    assert Size(p) == BYTE_UNIT;
  }

  lemma PrivateUnit(p: Prefix, a: Bits128, one: nat)
    requires p == UNIQUE_LOCAL && one == 1
    ensures Holds(p, a) <==> IsPrivate(a)
  {
    Pow2Of121(one);
    assert Size(p) == 2 * BYTE_UNIT;
    assert a / (2 * BYTE_UNIT) == FirstByte(a) / 2;
  }

  lemma LinkLocalUnit(p: Prefix, a: Bits128, one: nat)
    requires p == LINK_LOCAL && one == 1
    ensures Holds(p, a) <==> IsLinkLocal(a)
  {
    Pow2Of118(one);
    assert Size(p) == 0x40 * WORD_UNIT;
    assert a / (0x40 * WORD_UNIT) == FirstWord(a) / 64;
  }

  lemma MappedMulticastUnit(p: Prefix, a: Bits128, one: nat)
    requires p == MAPPED_MULTICAST && one == 1
    ensures Holds(p, a) <==> a / TWO_32 == 0xffff && (a % TWO_32) / 0x1000_0000 == 0xe
  {
    Pow2Of28(one);
    assert Size(p) == 0x1000_0000;
    assert a / 0x1000_0000 == (a / TWO_32) * 16 + (a % TWO_32) / 0x1000_0000;
  }

  lemma MulticastPrefix(a: Bits128)
    ensures Holds(MULTICAST, a) <==> FirstByte(a) == 0xff
  {
    MulticastUnit(MULTICAST, a, 1);
  }

  lemma PrivatePrefix(a: Bits128)
    ensures Holds(UNIQUE_LOCAL, a) <==> IsPrivate(a)
  {
    PrivateUnit(UNIQUE_LOCAL, a, 1);
  }

  lemma LinkLocalPrefix(a: Bits128)
    ensures Holds(LINK_LOCAL, a) <==> IsLinkLocal(a)
  {
    LinkLocalUnit(LINK_LOCAL, a, 1);
  }

  lemma MappedMulticastPrefix(a: Bits128)
    ensures Holds(MAPPED_MULTICAST, a) <==> V6(a).Unmap().V4? && V6(a).IsMulticast()
  {
    MappedMulticastUnit(MAPPED_MULTICAST, a, 1);
  }

  /** The byte masks of the policy test exactly membership of the five prefixes, and for an
      IPv4-mapped address they are those of the address it carries. */
  lemma PolicyIsPrefixes(a: Bits128)
    ensures NeedsAnnouncement(V6(a)) <==>
            if V6(a).Unmap().V6? then !Internal(a) else !InternalV4(a % TWO_32)
  {
    HostPrefix(UNSPECIFIED, a);
    HostPrefix(LOOPBACK, a);
    MulticastPrefix(a);
    PrivatePrefix(a);
    LinkLocalPrefix(a);
  }

  /** The internal space as ranges of numbers. */
  lemma InternalRanges(a: Bits128)
    ensures Internal(a) <==>
            a == 0 || a == 1 || a >= 0xff00_0000_0000_0000_0000_0000_0000_0000
            || 0xfe80_0000_0000_0000_0000_0000_0000_0000 <= a < 0xfec0_0000_0000_0000_0000_0000_0000_0000
            || 0xfc00_0000_0000_0000_0000_0000_0000_0000 <= a < 0xfe00_0000_0000_0000_0000_0000_0000_0000
  {
    HostPrefix(UNSPECIFIED, a);
    HostPrefix(LOOPBACK, a);
    MulticastPrefix(a);
    PrivatePrefix(a);
    LinkLocalPrefix(a);
    hide Holds;
    assert IsPrivate(a) <==> 0xfc <= FirstByte(a) <= 0xfd;
    assert IsLinkLocal(a) <==> 0xfe80 <= FirstWord(a) <= 0xfebf;
  }

  // ---------------------------------------------------------------- filtered and sorted sets

  /** The addresses a runtime or target list contributes: unmapped, valid and IPv6. */
  function Filter(addresses: seq<NetAddr>): set<NetAddr> {
    set a | a in addresses && a.Unmap().V6? :: a.Unmap()
  }

  /** The loop that fills a set with the addresses it keeps. */
  method Collect(addresses: seq<NetAddr>) returns (kept: set<NetAddr>)
    ensures kept == Filter(addresses)
    ensures forall a :: a in kept <==> a.V6? && exists i :: 0 <= i < |addresses| && addresses[i].Unmap() == a
  {
    kept := {};
    for i := 0 to |addresses|
      invariant kept == Filter(addresses[..i])
    {
      assert addresses[..i + 1] == addresses[..i] + [addresses[i]];
      var address := addresses[i].Unmap();
      if address.V6? {
        kept := kept + {address};
      }
    }
    assert addresses[..|addresses|] == addresses;
    forall a
      ensures a in kept <==> a.V6? && exists i :: 0 <= i < |addresses| && addresses[i].Unmap() == a
    {
      FilterIs(addresses, a);
    }
  }

  lemma FilterIs(addresses: seq<NetAddr>, a: NetAddr)
    ensures a in Filter(addresses) <==> a.V6? && exists i :: 0 <= i < |addresses| && addresses[i].Unmap() == a
  {
    if i :| 0 <= i < |addresses| && addresses[i].Unmap() == a {
      assert addresses[i] in addresses;
    }
  }

  /** The order of addresses, as a function value for the listings of module Ordered. */
  const RANK: NetAddr -> nat := (a: NetAddr) => a.Rank()

  /** The order is that of the numbers, with IPv4 addresses before IPv6 ones. */
  lemma RankIs(a: Bits128, b: Bits128, v: Bits32, w: Bits32)
    ensures RANK(V6(a)) < RANK(V6(b)) <==> a < b
    ensures RANK(V4(v)) < RANK(V4(w)) <==> v < w
    ensures RANK(Invalid) < RANK(V4(v)) < RANK(V6(a))
  {
  }

  lemma RankOrders()
    ensures Injective(RANK)
  {
    forall a: NetAddr, b: NetAddr | RANK(a) == RANK(b)
      ensures a == b
    {
      RankInjective(a, b);
    }
  }
}
