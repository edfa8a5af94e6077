/** The four frame builders and the capture decoder of ndp.go. The byte layouts are those
    of sections 4.3, 4.4 and 4.6.1 of RFC 4861 inside the IPv6 header of section 3 of
    RFC 8200 and an Ethernet header; the field values are the program's. */
module Frames {
  import opened Addresses
  import opened Bpf
  import opened Checksum

  // ---------------------------------------------------------------- numbers as bytes

  function Pow256(k: nat): (r: nat)
    ensures r > 0
  {
    if k == 0 then 1 else 256 * Pow256(k - 1)
  }

  lemma {:induction false} Pow256Splits(j: nat, k: nat)
    ensures Pow256(j + k) == Pow256(j) * Pow256(k)
  {
    if j > 0 {
      Pow256Splits(j - 1, k);
      assert Pow256(j + k) == 256 * Pow256(j - 1 + k);
      assert 256 * (Pow256(j - 1) * Pow256(k)) == (256 * Pow256(j - 1)) * Pow256(k);
    }
  }

  lemma Pow256Of4(one: nat)
    requires one == 1
    ensures Pow256(4 * one) == TWO_32
  {
    assert Pow256(one) == 0x100;
    Pow256Splits(one, one);
    Pow256Splits(2 * one, 2 * one);
  }

  lemma Pow256Of15(one: nat)
    requires one == 1
    ensures Pow256(15 * one) == BYTE_UNIT
  {
    Pow256Of4(one);
    assert Pow256(3 * one) == 0x100_0000;
    Pow256Splits(4 * one, 4 * one);
    Pow256Splits(8 * one, 4 * one);
    Pow256Splits(12 * one, 3 * one);
  }

  lemma Pow256Of16(one: nat)
    requires one == 1
    ensures Pow256(16 * one) == TWO_128
  {
    Pow256Of15(one);
  }

  /** The k-byte network order form of a number. */
  function ToBytes(n: nat, k: nat): (bs: seq<Byte>)
    ensures |bs| == k
  {
    if k == 0 then [] else ToBytes(n / 256, k - 1) + [n % 256]
  }

  function FromBytes(bs: seq<Byte>): nat {
    if |bs| == 0 then 0
    else
      var last: nat := bs[|bs| - 1];
      FromBytes(bs[..|bs| - 1]) * 256 + last
  }

  lemma {:induction false} FromBytesBound(bs: seq<Byte>)
    ensures FromBytes(bs) < Pow256(|bs|)
  {
    if |bs| > 0 {
      FromBytesBound(bs[..|bs| - 1]);
    }
  }

  lemma {:induction false} BytesRoundTrip(n: nat, k: nat)
    requires n < Pow256(k)
    ensures FromBytes(ToBytes(n, k)) == n
  {
    if k > 0 {
      BytesRoundTrip(n / 256, k - 1);
      assert ToBytes(n, k)[..k - 1] == ToBytes(n / 256, k - 1);
    }
  }

  lemma {:induction false} FromBytesJoins(a: seq<Byte>, b: seq<Byte>)
    ensures FromBytes(a + b) == FromBytes(a) * Pow256(|b|) + FromBytes(b)
  {
    if |b| == 0 {
      assert a + b == a;
    } else {
      var b', n := b[..|b| - 1], |b| - 1;
      assert (a + b)[..|a + b| - 1] == a + b';
      FromBytesJoins(a, b');
      assert (FromBytes(a) * Pow256(n)) * 256 == FromBytes(a) * (256 * Pow256(n));
    }
  }

  lemma {:induction false} BytesBack(bs: seq<Byte>)
    ensures ToBytes(FromBytes(bs), |bs|) == bs
  {
    if |bs| > 0 {
      var rest, last: nat := bs[..|bs| - 1], bs[|bs| - 1];
      BytesBack(rest);
      assert (FromBytes(rest) * 256 + last) / 256 == FromBytes(rest);
      assert bs == rest + [last];
    }
  }

  lemma FromBytesStep(bs: seq<Byte>, k: nat)
    requires k < |bs|
    ensures FromBytes(bs[..k + 1]) == FromBytes(bs[..k]) * 256 + bs[k]
  {
    assert bs[..k + 1][..k] == bs[..k];
  }

  function As16(a: Bits128): (bs: seq<Byte>)
    ensures |bs| == 16
  {
    ToBytes(a, 16)
  }

  /** The address that sixteen bytes spell. */
  function From16(bs: seq<Byte>): Bits128
    requires |bs| == 16
  {
    var one := 1;
    Pow256Of16(one);
    FromBytesBound(bs);
    FromBytes(bs)
  }

  lemma AddressRoundTrip(a: Bits128)
    ensures From16(As16(a)) == a
  {
    var one := 1;
    Pow256Of16(one);
    BytesRoundTrip(a, 16 * one);
  }

  /** Reading sixteen bytes as an address, unmapping it and writing it out again changes nothing. */
  lemma UnmapRoundTrip(bs: seq<Byte>)
    requires |bs| == 16
    ensures As16(V6(From16(bs)).Unmap().Bits()) == bs
  {
    var a := From16(bs);
    assert V6(a).Unmap().Bits() == a;
    BytesBack(bs);
  }

  /** The first byte of an address holds its eight leading bits. */
  lemma FirstByteLeads(bs: seq<Byte>)
    requires |bs| == 16
    ensures From16(bs) / BYTE_UNIT == bs[0]
  {
    var one := 1;
    Pow256Of15(one);
    assert bs == bs[..1] + bs[1..];
    FromBytesJoins(bs[..1], bs[1..]);
    FromBytesBound(bs[1..]);
    assert FromBytes(bs[..1]) == bs[0];
  }

  // ---------------------------------------------------------------- messages and frames

  const ICMPV6: Byte := 58
  const SOLICITATION: Byte := 135
  const ADVERTISEMENT: Byte := 136
  const SOURCE_LINK_ADDRESS: Byte := 1
  const TARGET_LINK_ADDRESS: Byte := 2
  const NONCE: Byte := 14
  const ROUTER: Byte := 0x80
  const SOLICITED: Byte := 0x40
  const OVERRIDE: Byte := 0x20

  /** A neighbor discovery message with one six-byte option. The flags are the first byte of
      the 32-bit field after the checksum; a solicitation leaves that field zero. */
  datatype Message = Message(kind: Byte, flags: Byte, target: seq<Byte>, option: Byte, data: seq<Byte>) {
    predicate Valid() {
      |target| == 16 && |data| == 6
    }

    /** The bytes after the checksum field. */
    function Body(): seq<Byte> {
      [flags, 0, 0, 0] + target + [option, 1] + data
    }
  }

  /** The link, network and message parts that determine a frame. */
  datatype Parts = Parts(srcMac: seq<Byte>, dstMac: seq<Byte>, src: seq<Byte>, dst: seq<Byte>, message: Message) {
    predicate Valid() {
      |srcMac| == 6 && |dstMac| == 6 && |src| == 16 && |dst| == 16 && message.Valid()
    }
  }

  /** The pseudo-header of section 8.1 of RFC 8200. */
  function PseudoHeader(src: seq<Byte>, dst: seq<Byte>, length: nat, next: Byte): seq<Byte> {
    src + dst + ToBytes(length, 4) + [0, 0, 0, next]
  }

  function ChecksumOf(p: Parts): (c: nat)
    requires p.Valid()
    ensures c <= 0xffff
  {
    var m := p.message;
    Complement(Sum(PseudoHeader(p.src, p.dst, 32, ICMPV6) + ([m.kind, 0, 0, 0] + m.Body())))
  }

  function LinkHeader(p: Parts): (h: seq<Byte>)
    requires p.Valid()
    ensures |h| == 14
  {
    p.dstMac + p.srcMac + [0x86, 0xdd]
  }

  function NetworkHeader(p: Parts): (h: seq<Byte>)
    requires p.Valid()
    ensures |h| == 40
  {
    [0x60, 0, 0, 0, 0, 32, ICMPV6, 255] + p.src + p.dst
  }

  function Payload(p: Parts): (h: seq<Byte>)
    requires p.Valid()
    ensures |h| == 32
  {
    var m, c := p.message, ChecksumOf(p);
    [m.kind, 0, c / 256, c % 256] + m.Body()
  }

  /** The serialized frame. */
  function Frame(p: Parts): (f: Packet)
    requires p.Valid()
    ensures |f| == 86
  {
    LinkHeader(p) + NetworkHeader(p) + Payload(p)
  }

  lemma ThreeParts(a: Packet, b: Packet, c: Packet)
    ensures (a + b + c)[..|a|] == a
    ensures (a + b + c)[|a|..|a| + |b|] == b
    ensures (a + b + c)[|a| + |b|..] == c
  {
    assert (a + b + c)[|a|..|a| + |b|] == (a + b)[|a|..];
    assert (a + b)[|a|..] == b;
  }

  lemma FrameParts(p: Parts)
    requires p.Valid()
    ensures var f := Frame(p); f[..14] == LinkHeader(p) && f[14..54] == NetworkHeader(p) && f[54..] == Payload(p)
  {
    ThreeParts(LinkHeader(p), NetworkHeader(p), Payload(p));
  }

  lemma SliceOfSlice(s: Packet, i: nat, j: nat, k: nat, l: nat)
    requires k <= l <= j - i && i <= j <= |s|
    ensures s[i..j][k..l] == s[i + k..i + l]
  {
    var x, y := s[i..j][k..l], s[i + k..i + l];
    forall n | 0 <= n < l - k
      ensures x[n] == y[n]
    {
      assert x[n] == s[i..j][k + n];
    }
  }

  /** Where the fields of a frame lie. */
  lemma FrameFields(p: Parts)
    requires p.Valid()
    ensures var f := Frame(p);
            f[0..6] == p.dstMac && f[6..12] == p.srcMac && f[12] == 0x86 && f[13] == 0xdd
            && f[14] == 0x60 && f[18] == 0 && f[19] == 32 && f[20] == ICMPV6 && f[21] == 255
            && f[22..38] == p.src && f[38..54] == p.dst
  {
    FrameParts(p);
    var f := Frame(p);
    assert LinkHeader(p)[0..6] == p.dstMac && LinkHeader(p)[6..12] == p.srcMac;
    SliceOfSlice(f, 0, 14, 0, 6);
    SliceOfSlice(f, 0, 14, 6, 12);
    assert f[12] == f[..14][12] && f[13] == f[..14][13];
    var n := f[14..54];
    assert n[8..24] == p.src && n[24..40] == p.dst;
    SliceOfSlice(f, 14, 54, 8, 24);
    SliceOfSlice(f, 14, 54, 24, 40);
    assert f[14] == n[0] && f[18] == n[4] && f[19] == n[5] && f[20] == n[6] && f[21] == n[7];
  }

  lemma MessageFields(p: Parts)
    requires p.Valid()
    ensures var f, m := Frame(p), p.message;
            f[54] == m.kind && f[55] == 0 && f[58] == m.flags && f[59] == f[60] == f[61] == 0
            && f[62..78] == m.target && f[78] == m.option && f[79] == 1 && f[80..86] == m.data
  {
    FrameParts(p);
    var f, m, y := Frame(p), p.message, Payload(p);
    assert y[8..24] == m.target && y[26..32] == m.data && y[24] == m.option && y[25] == 1;
    SliceOfSlice(f, 54, 86, 8, 24);
    SliceOfSlice(f, 54, 86, 26, 32);
    assert f[54] == y[0] && f[55] == y[1] && f[58] == y[4] && f[59] == y[5] && f[60] == y[6] && f[61] == y[7];
    assert f[78] == y[24] && f[79] == y[25];
  }

  // ---------------------------------------------------------------- well-formed frames

  /** What a receiver checks of an ICMPv6 neighbor discovery frame, read from its bytes: the
      IPv6 version, a payload length that matches, next header ICMPv6, hop limit 255, code 0,
      and a checksum that makes pseudo-header and message fold to 0xffff. */
  predicate WellFormed(f: Packet) {
    |f| >= 58
    && f[12] == 0x86 && f[13] == 0xdd && f[14] / 16 == 6
    && (f[18] as int) * 256 + f[19] == |f| - 54
    && f[20] == 58 && f[21] == 255 && f[55] == 0
    && Fold(Sum(Checked(f))) == 0xffff
  }

  /** The bytes under the checksum: both addresses, the payload length and the next header in
      four bytes each, and the message. */
  function Checked(f: Packet): Packet
    requires |f| >= 54
  {
    f[22..38] + f[38..54] + [0, 0, f[18], f[19]] + [0, 0, 0, 58] + f[54..]
  }

  /** The sum of 16-bit words is the value of all the bytes modulo 0xffff, each word counting
      once: 0x10000 leaves the remainder 1. */
  lemma {:induction false} SumResidue(bs: seq<Byte>)
    requires |bs| % 2 == 0
    ensures Sum(bs) % 0xffff == FromBytes(bs) % 0xffff
    decreases |bs|
  {
    if |bs| > 0 {
      var n := |bs| - 2;
      var high: nat, low: nat := bs[n], bs[n + 1];
      SumResidue(bs[..n]);
      SumSplits(bs[..n], bs[n..]);
      assert bs == bs[..n] + bs[n..];
      SumOfTwo(bs[n..]);
      assert bs[..n + 1][..n] == bs[..n] && bs[..n + 2] == bs;
      FromBytesStep(bs, n);
      FromBytesStep(bs, n + 1);
      var rest := FromBytes(bs[..n]);
      assert FromBytes(bs) == rest * 0xffff + (rest + high * 256 + low);
      AddMultiple(rest, rest + high * 256 + low);
      AddResidues(Sum(bs[..n]), rest, high * 256 + low);
    }
  }

  lemma SumOfTwo(bs: seq<Byte>)
    requires |bs| == 2
    ensures Sum(bs) == (bs[0] as int) * 256 + bs[1]
  {
    assert Sum(bs[2..]) == 0;
  }

  lemma AddMultiple(k: nat, x: nat)
    ensures (k * 0xffff + x) % 0xffff == x % 0xffff
  {
  }

  lemma AddResidues(x: nat, y: nat, z: nat)
    requires x % 0xffff == y % 0xffff
    ensures (x + z) % 0xffff == (y + z) % 0xffff
  {
  }

  /** What the checksum comes to: the bytes under it, as one number, are a multiple of 0xffff. */
  lemma WellFormedResidue(f: Packet)
    requires WellFormed(f) && |f| % 2 == 0
    ensures FromBytes(Checked(f)) % 0xffff == 0
  {
    FoldResidue(Sum(Checked(f)));
    SumResidue(Checked(f));
  }

  lemma SumOfFour(bs: seq<Byte>)
    requires |bs| == 4
    ensures var a: nat, b: nat, c: nat, d: nat := bs[0], bs[1], bs[2], bs[3];
            Sum(bs) == a * 256 + b + c * 256 + d
  {
    var t := bs[2..];
    assert t[0] == bs[2] && t[1] == bs[3];
    assert Sum(t[2..]) == 0;
    assert Sum(bs) == bs[0] * 256 + bs[1] + Sum(t);
  }

  /** The sum with the checksum in place is the sum without it plus the checksum. */
  lemma SumWithChecksum(pseudo: seq<Byte>, kind: Byte, c: nat, body: seq<Byte>)
    requires |pseudo| % 2 == 0 && c <= 0xffff
    ensures Sum(pseudo + ([kind, 0, c / 256, c % 256] + body))
            == Sum(pseudo + ([kind, 0, 0, 0] + body)) + c
  {
    var head, bare: seq<Byte> := [kind, 0, c / 256, c % 256], [kind, 0, 0, 0];
    SumSplits(pseudo, head + body);
    SumSplits(pseudo, bare + body);
    SumSplits(head, body);
    SumSplits(bare, body);
    SumOfFour(head);
    SumOfFour(bare);
  }

  lemma LengthBytes(next: Byte)
    ensures ToBytes(32, 4) + [0, 0, 0, next] == [0, 0, 0, 32] + [0, 0, 0, next]
  {
    assert ToBytes(0, 2) == ToBytes(0, 1) + [0] && ToBytes(0, 1) == ToBytes(0, 0) + [0];
    assert ToBytes(32, 4) == ToBytes(0, 3) + [32] && ToBytes(0, 3) == ToBytes(0, 2) + [0];
  }

  lemma FrameWellFormed(p: Parts)
    requires p.Valid()
    ensures WellFormed(Frame(p))
  {
    var f, m, c := Frame(p), p.message, ChecksumOf(p);
    FrameFields(p);
    MessageFields(p);
    FrameParts(p);
    var pseudo := PseudoHeader(p.src, p.dst, 32, ICMPV6);
    SumWithChecksum(pseudo, m.kind, c, m.Body());
    ComplementVerifies(Sum(pseudo + ([m.kind, 0, 0, 0] + m.Body())));
    LengthBytes(ICMPV6);
    assert Checked(f) == pseudo + Payload(p);
  }
}
