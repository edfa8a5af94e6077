/** The four message builders of ndp.go and its capture decoder, with what holds of every
    frame: it is well-formed, solicitations pass the packet filter and decode to what was
    put in, and advertisements never pass it. */
module Messages {
  import opened Addresses
  import opened Bpf
  import opened Frames

  datatype BuildError = InvalidTarget | InvalidMac | NotIPv6

  /** The all-nodes address ff02::1. */
  const ALL_NODES: seq<Byte> := [0xff, 2, 0, 0, 0, 0, 0, 0, 0, 0, 0, 0, 0, 0, 0, 1]

  /** Serializing fails unless both link addresses have six bytes. */
  function Serialize(p: Parts): (r: Result<Packet, BuildError>)
    requires p.Valid() || |p.srcMac| != 6
  {
    if |p.srcMac| != 6 then Err(InvalidMac) else Ok(Frame(p))
  }

  /** UnsolicitedAdvertisement: a routed address announced to all nodes. */
  function UnsolicitedAdvertisement(mac: seq<Byte>, target: NetAddr): Result<Packet, BuildError> {
    if !target.V6? || target.v6 == 0 || target.IsMulticast() then Err(InvalidTarget)
    else if |mac| != 6 then Err(InvalidMac)
    else Ok(Frame(AnnouncementParts(mac, target.v6)))
  }

  function AnnouncementParts(mac: seq<Byte>, target: Bits128): Parts {
    Parts(mac, [0x33, 0x33, 0, 0, 0, 1], As16(target), ALL_NODES,
          Message(ADVERTISEMENT, ROUTER + OVERRIDE, As16(target), TARGET_LINK_ADDRESS, mac))
  }

  /** The multicast link and network destinations the builders derive from an address. */
  function GroupMac(a: seq<Byte>): seq<Byte>
    requires |a| == 16
  {
    [0x33, 0x33, 0xff, a[13], a[14], a[15]]
  }

  function GroupAddress(a: seq<Byte>): seq<Byte>
    requires |a| == 16
  {
    [0xff, 0x02, 0, 0, 0, 0, 0, 0, 0, 0, 0, 1, 0xff, a[13], a[14], a[15]]
  }

  /** Gratuitous: a solicitation for the address itself, from the unspecified address. */
  function Gratuitous(mac: seq<Byte>, target: Bits128, nonce: seq<Byte>): Result<Packet, BuildError>
    requires |nonce| == 6
  {
    Serialize(GratuitousParts(mac, target, nonce))
  }

  function GratuitousParts(mac: seq<Byte>, target: Bits128, nonce: seq<Byte>): Parts {
    Parts(mac, GroupMac(As16(target)), As16(0), GroupAddress(As16(target)),
          Message(SOLICITATION, 0, As16(target), NONCE, nonce))
  }

  /** Solicit: a solicitation for the gateway, from one of the announced addresses. */
  function Solicit(mac: seq<Byte>, gateway: Bits128, source: Bits128): Result<Packet, BuildError> {
    Serialize(SolicitParts(mac, gateway, source))
  }

  function SolicitParts(mac: seq<Byte>, gateway: Bits128, source: Bits128): Parts {
    Parts(mac, GroupMac(As16(gateway)), As16(source), GroupAddress(As16(gateway)),
          Message(SOLICITATION, 0, As16(gateway), SOURCE_LINK_ADDRESS, mac))
  }

  /** A captured solicitation. */
  datatype NeighSolicitation = NeighSolicitation(routerMac: seq<Byte>, router: NetAddr, dest: NetAddr,
                                                 target: NetAddr) {
    predicate Valid() {
      |routerMac| == 6
    }

    /** The addresses fit into an IPv6 header. */
    predicate Answerable() {
      router.V6? && target.V6?
    }
  }

  /** Respond: the advertisement that answers a solicitation. Serializing fails for an address
      that unmapping has turned into an IPv4 address of four bytes. */
  function Respond(ns: NeighSolicitation, mac: seq<Byte>): (r: Result<Packet, BuildError>)
    requires ns.Valid()
    ensures r.Ok? ==> |r.value| == 86
  {
    if !ns.Answerable() then Err(NotIPv6) else Serialize(ResponseParts(ns, mac))
  }

  function ResponseParts(ns: NeighSolicitation, mac: seq<Byte>): Parts
    requires ns.Valid() && ns.Answerable()
  {
    Parts(mac, ns.routerMac, As16(ns.target.v6), As16(ns.router.v6),
          Message(ADVERTISEMENT,
                  ROUTER + SOLICITED + if ns.dest.IsMulticast() then OVERRIDE else 0,
                  As16(ns.target.v6), TARGET_LINK_ADDRESS, mac))
  }

  // ---------------------------------------------------------------- capture

  /** An option list of section 4.6 of RFC 4861: lengths are counted in units of eight bytes
      and are never zero. */
  predicate OptionList(bs: seq<Byte>)
    decreases |bs|
  {
    |bs| == 0 || (|bs| >= 2 && bs[1] > 0 && 8 * bs[1] <= |bs| && OptionList(bs[8 * bs[1]..]))
  }

  /** The ICMPv6 bytes: what follows the IPv6 header, cut to its payload length. */
  function Datagram(pkt: Packet): seq<Byte>
    requires |pkt| >= 54
  {
    var n := Half(pkt, 18);
    if 54 + n <= |pkt| then pkt[54..54 + n] else pkt[54..]
  }

  /** CaptureNeighSolicitation on one packet: Ethernet, IPv6, ICMPv6 and a solicitation, and
      nothing else, or the packet is skipped. */
  function Capture(pkt: Packet): (r: Option<NeighSolicitation>)
    ensures r.Some? ==> |r.value.routerMac| == 6 && !r.value.router.Invalid?
  {
    if |pkt| < 54 || Half(pkt, 12) != 0x86dd || Half(pkt, 18) == 0 || pkt[20] != ICMPV6 then None
    else
      var body := Datagram(pkt);
      if |body| < 24 || body[0] != SOLICITATION || !OptionList(body[24..]) then None
      else Some(NeighSolicitation(pkt[6..12], V6(From16(pkt[22..38])).Unmap(),
                                  V6(From16(pkt[38..54])).Unmap(), V6(From16(body[8..24])).Unmap()))
  }

  /** An option as it is written. */
  datatype Opt = Opt(kind: Byte, units: Byte, data: seq<Byte>)

  predicate GoodOptions(options: seq<Opt>) {
    forall i :: 0 <= i < |options| ==> options[i].units > 0 && |options[i].data| == 8 * options[i].units - 2
  }

  function Written(options: seq<Opt>): seq<Byte> {
    if |options| == 0 then []
    else [options[0].kind, options[0].units] + options[0].data + Written(options[1..])
  }

  lemma {:induction false} WrittenIsList(options: seq<Opt>)
    requires GoodOptions(options)
    ensures OptionList(Written(options))
  {
    if |options| > 0 {
      WrittenIsList(options[1..]);
      var bs, n := Written(options), 8 * options[0].units;
      assert bs[n..] == Written(options[1..]);
    }
  }

  lemma {:induction false} ListIsWritten(bs: seq<Byte>) returns (options: seq<Opt>)
    requires OptionList(bs)
    ensures GoodOptions(options) && Written(options) == bs
    decreases |bs|
  {
    if |bs| == 0 {
      options := [];
    } else {
      var units: nat := bs[1];
      var n := 8 * units;
      var rest := ListIsWritten(bs[n..]);
      options := [Opt(bs[0], bs[1], bs[2..n])] + rest;
      assert options[1..] == rest;
      assert bs == [bs[0], bs[1]] + bs[2..n] + bs[n..];
    }
  }

  /** Where the datagram of a packet ends. */
  function DatagramEnd(pkt: Packet): nat
    requires |pkt| >= 54
  {
    var end := 54 + (pkt[18] as int) * 256 + pkt[19];
    if end <= |pkt| then end else |pkt|
  }

  /** Exactly which packets are taken: IPv6 with a payload, ICMPv6, a solicitation of at least 24
      bytes, and after it any number of whole options up to the end of the datagram. */
  lemma CapturedIff(pkt: Packet)
    ensures Capture(pkt).Some? <==>
            |pkt| >= 78 && pkt[12] == 0x86 && pkt[13] == 0xdd && pkt[20] == 58 && pkt[54] == 135
            && 78 <= DatagramEnd(pkt) <= |pkt|
            && exists options :: GoodOptions(options) && Written(options) == pkt[78..DatagramEnd(pkt)]
  {
    if |pkt| >= 78 {
      var body, end := Datagram(pkt), DatagramEnd(pkt);
      assert Half(pkt, 12) == 0x86dd <==> pkt[12] == 0x86 && pkt[13] == 0xdd;
      assert body == pkt[54..end] && (end > 54 ==> body[0] == pkt[54]);
      if end >= 78 {
        assert body[24..] == pkt[78..end];
        if OptionList(body[24..]) {
          var options := ListIsWritten(body[24..]);
        }
        if options :| GoodOptions(options) && Written(options) == pkt[78..end] {
          WrittenIsList(options);
        }
      }
    }
  }

  // ---------------------------------------------------------------- every frame

  /** Every frame any of the four builders returns is well-formed: length fields, hop limit
      and a checksum that verifies against the pseudo-header read from its own bytes. */
  lemma BuiltFramesWellFormed(mac: seq<Byte>, announced: NetAddr, target: Bits128, gateway: Bits128,
                              source: Bits128, nonce: seq<Byte>, ns: NeighSolicitation)
    requires |nonce| == 6 && ns.Valid()
    ensures UnsolicitedAdvertisement(mac, announced).Ok? ==> WellFormed(UnsolicitedAdvertisement(mac, announced).value)
    ensures Gratuitous(mac, target, nonce).Ok? ==> WellFormed(Gratuitous(mac, target, nonce).value)
    ensures Solicit(mac, gateway, source).Ok? ==> WellFormed(Solicit(mac, gateway, source).value)
    ensures Respond(ns, mac).Ok? ==> WellFormed(Respond(ns, mac).value)
  {
    hide Frame, WellFormed;
    if |mac| == 6 {
      FrameWellFormed(GratuitousParts(mac, target, nonce));
      FrameWellFormed(SolicitParts(mac, gateway, source));
      if ns.Answerable() {
        FrameWellFormed(ResponseParts(ns, mac));
      }
      if announced.V6? {
        FrameWellFormed(AnnouncementParts(mac, announced.v6));
      }
    }
  }

  /** Advertisements never pass the filter, so the responder never captures its own answers. */
  lemma AdvertisementsFiltered(mac: seq<Byte>, announced: NetAddr, ns: NeighSolicitation)
    requires ns.Valid()
    ensures UnsolicitedAdvertisement(mac, announced).Ok? ==> !Accepts(UnsolicitedAdvertisement(mac, announced).value)
    ensures Respond(ns, mac).Ok? ==> !Accepts(Respond(ns, mac).value)
  {
    if |mac| == 6 {
      if ns.Answerable() {
        NotASolicitation(ResponseParts(ns, mac));
      }
      if announced.V6? {
        NotASolicitation(AnnouncementParts(mac, announced.v6));
      }
    }
  }

  lemma NotASolicitation(p: Parts)
    requires p.Valid() && p.message.kind != SOLICITATION
    ensures !Accepts(Frame(p))
  {
    MessageFields(p);
    FilterMeaning(Frame(p));
  }

  /** A solicitation frame passes the filter and decodes to its own parts. */
  lemma SolicitationCaptured(p: Parts)
    requires p.Valid() && p.message.kind == SOLICITATION
    ensures Accepts(Frame(p))
    ensures Capture(Frame(p)) == Some(NeighSolicitation(p.srcMac, V6(From16(p.src)).Unmap(),
                                                        V6(From16(p.dst)).Unmap(),
                                                        V6(From16(p.message.target)).Unmap()))
  {
    var f := Frame(p);
    FrameFields(p);
    MessageFields(p);
    FilterMeaning(f);
    assert Half(f, 12) == 0x86dd && Half(f, 18) == 32;
    var body := Datagram(f);
    assert body[0] == f[54] && body[25] == f[79];
    DatagramTarget(f);
    OneOption(body[24..]);
  }

  lemma OneOption(bs: seq<Byte>)
    requires |bs| == 8 && bs[1] == 1
    ensures OptionList(bs)
  {
    assert bs[8 * bs[1]..] == [];
  }

  lemma DatagramTarget(pkt: Packet)
    requires |pkt| >= 54 && |Datagram(pkt)| >= 24
    ensures |pkt| >= 78 && Datagram(pkt)[8..24] == pkt[62..78]
  {
    SliceOfSlice(pkt, 54, 54 + |Datagram(pkt)|, 8, 24);
  }

  /** Solicit and Gratuitous round trip: the capture recovers the sender's link and network
      address, the group the frame was sent to, and the address asked for. */
  lemma SolicitRoundTrip(mac: seq<Byte>, gateway: Bits128, source: Bits128)
    requires |mac| == 6
    ensures var r := Solicit(mac, gateway, source);
            r.Ok? && Accepts(r.value)
            && Capture(r.value) == Some(NeighSolicitation(mac, V6(source).Unmap(),
                                                          V6(SolicitedNode(gateway)), V6(gateway).Unmap()))
  {
    SolicitationCaptured(SolicitParts(mac, gateway, source));
    AddressRoundTrip(gateway);
    AddressRoundTrip(source);
    GroupOf(gateway);
  }

  lemma GratuitousRoundTrip(mac: seq<Byte>, target: Bits128, nonce: seq<Byte>)
    requires |mac| == 6 && |nonce| == 6
    ensures var r := Gratuitous(mac, target, nonce);
            r.Ok? && Accepts(r.value)
            && Capture(r.value) == Some(NeighSolicitation(mac, V6(0),
                                                          V6(SolicitedNode(target)), V6(target).Unmap()))
  {
    SolicitationCaptured(GratuitousParts(mac, target, nonce));
    AddressRoundTrip(target);
    AddressRoundTrip(0);
    GroupOf(target);
  }

  // ---------------------------------------------------------------- byte for byte

  /** A neighbor advertisement of section 4.4 of RFC 4861 with its target link-layer address
      option, in its Ethernet frame: it says that mac is the link address of src. */
  predicate Advertises(f: Packet, linkDst: seq<Byte>, mac: seq<Byte>, src: seq<Byte>, dst: seq<Byte>, flags: nat) {
    |f| == 86 && f[0..6] == linkDst && f[6..12] == mac && f[12] == 0x86 && f[13] == 0xdd
    && f[20] == 58 && f[21] == 255 && f[22..38] == src && f[38..54] == dst
    && f[54] == 136 && f[55] == 0 && f[58] == flags && f[59] == f[60] == f[61] == 0
    && f[62..78] == src && f[78] == 2 && f[79] == 1 && f[80..86] == mac
  }

  /** A neighbor solicitation of section 4.3 of RFC 4861 with one option. */
  predicate Solicits(f: Packet, linkDst: seq<Byte>, mac: seq<Byte>, src: seq<Byte>, dst: seq<Byte>, target: seq<Byte>,
                     option: nat, data: seq<Byte>)
  {
    |f| == 86 && f[0..6] == linkDst && f[6..12] == mac && f[12] == 0x86 && f[13] == 0xdd
    && f[20] == 58 && f[21] == 255 && f[22..38] == src && f[38..54] == dst
    && f[54] == 135 && f[55] == 0 && f[58] == f[59] == f[60] == f[61] == 0
    && f[62..78] == target && f[78] == option && f[79] == 1 && f[80..86] == data
  }

  /** An unsolicited advertisement tells all nodes that the host has the address, with the
      router and override flags. */
  lemma AdvertisementBytes(mac: seq<Byte>, target: NetAddr)
    ensures UnsolicitedAdvertisement(mac, target).Ok? ==>
              target.V6?
              && Advertises(UnsolicitedAdvertisement(mac, target).value, [0x33, 0x33, 0, 0, 0, 1], mac,
                            As16(target.v6), [0xff, 2, 0, 0, 0, 0, 0, 0, 0, 0, 0, 0, 0, 0, 0, 1], 0xa0)
  {
    if UnsolicitedAdvertisement(mac, target).Ok? {
      var p := AnnouncementParts(mac, target.v6);
      FrameFields(p);
      MessageFields(p);
    }
  }

  lemma GroupBytes(a: seq<Byte>)
    requires |a| == 16
    ensures GroupMac(a) == [0x33, 0x33, 0xff] + a[13..]
    ensures GroupAddress(a) == [0xff, 2, 0, 0, 0, 0, 0, 0, 0, 0, 0, 1, 0xff] + a[13..]
  {
    assert a[13..] == [a[13], a[14], a[15]];
  }

  /** A gratuitous solicitation comes from the unspecified address, with a nonce, and goes to the
      solicited-node group of the address it asks for. */
  lemma GratuitousBytes(mac: seq<Byte>, target: Bits128, nonce: seq<Byte>)
    requires |mac| == 6 && |nonce| == 6
    ensures Gratuitous(mac, target, nonce).Ok?
            && Solicits(Gratuitous(mac, target, nonce).value, [0x33, 0x33, 0xff] + As16(target)[13..], mac, As16(0),
                        [0xff, 2, 0, 0, 0, 0, 0, 0, 0, 0, 0, 1, 0xff] + As16(target)[13..], As16(target), 14, nonce)
  {
    hide ToBytes, Frame;
    var p := GratuitousParts(mac, target, nonce);
    FrameFields(p);
    MessageFields(p);
    GroupBytes(As16(target));
  }

  /** A solicitation for the gateway comes from an announced address, with the source link-layer
      address. */
  lemma SolicitBytes(mac: seq<Byte>, gateway: Bits128, source: Bits128)
    requires |mac| == 6
    ensures Solicit(mac, gateway, source).Ok?
            && Solicits(Solicit(mac, gateway, source).value, [0x33, 0x33, 0xff] + As16(gateway)[13..], mac,
                        As16(source), [0xff, 2, 0, 0, 0, 0, 0, 0, 0, 0, 0, 1, 0xff] + As16(gateway)[13..],
                        As16(gateway), 1, mac)
  {
    hide ToBytes, Frame;
    var p := SolicitParts(mac, gateway, source);
    FrameFields(p);
    MessageFields(p);
    GroupBytes(As16(gateway));
  }

  // ---------------------------------------------------------------- groups

  const LOW_24: nat := 0x100_0000

  /** The solicited-node address of section 2.7.1 of RFC 4291: ff02::1:ff00:0/104 with the
      low 24 bits of the address. */
  function SolicitedNode(a: Bits128): Bits128 {
    0xff02_0000_0000_0000_0000_0001_ff00_0000 + a % LOW_24
  }

  lemma RemainderIs(q: nat, rest: nat)
    requires rest < LOW_24
    ensures (q * LOW_24 + rest) % LOW_24 == rest
  {
  }

  lemma LowBytes(a: Bits128)
    ensures FromBytes(As16(a)[13..]) == a % LOW_24
  {
    hide ToBytes, FromBytes, Pow256;
    var bs := As16(a);
    AddressRoundTrip(a);
    assert bs == bs[..13] + bs[13..];
    FromBytesJoins(bs[..13], bs[13..]);
    FromBytesBound(bs[13..]);
    Pow256Of3(bs[13..]);
    RemainderIs(FromBytes(bs[..13]), FromBytes(bs[13..]));
  }

  lemma Pow256Of3(bs: seq<Byte>)
    requires |bs| == 3
    ensures Pow256(|bs|) == LOW_24
  {
    assert Pow256(|bs| - 2) == 0x100;
  }

  lemma GroupPrefix(g: seq<Byte>)
    requires |g| >= 13 && g[..13] == [0xff, 0x02, 0, 0, 0, 0, 0, 0, 0, 0, 0, 1, 0xff]
    ensures FromBytes(g[..13]) == 0xff02_0000_0000_0000_0000_0001_ff
  {
    assert forall i :: 0 <= i < 13 ==> g[i] == g[..13][i];
    FromBytesStep(g, 0);
    FromBytesStep(g, 1);
    FromBytesStep(g, 2);
    FromBytesStep(g, 3);
    FromBytesStep(g, 4);
    FromBytesStep(g, 5);
    FromBytesStep(g, 6);
    FromBytesStep(g, 7);
    FromBytesStep(g, 8);
    FromBytesStep(g, 9);
    FromBytesStep(g, 10);
    FromBytesStep(g, 11);
    FromBytesStep(g, 12);
  }

  /** The group bytes the builders assemble spell the solicited-node address, and the link
      destination is the Ethernet multicast form of it (section 7 of RFC 2464). */
  lemma GroupOf(a: Bits128)
    ensures From16(GroupAddress(As16(a))) == SolicitedNode(a)
    ensures !V6(SolicitedNode(a)).Unmap().V4? && V6(SolicitedNode(a)).IsMulticast()
    ensures GroupMac(As16(a)) == [0x33, 0x33] + GroupAddress(As16(a))[12..]
  {
    LowBytes(a);
    var bs, g := As16(a), GroupAddress(As16(a));
    assert g == g[..13] + bs[13..];
    FromBytesJoins(g[..13], bs[13..]);
    Pow256Of3(bs[13..]);
    GroupPrefix(g);
  }

  // ---------------------------------------------------------------- answering

  /** What a captured packet holds, byte for byte; and the filter lets such packets through. */
  lemma CapturedFields(pkt: Packet)
    requires Capture(pkt).Some?
    ensures var ns := Capture(pkt).value;
            Accepts(pkt) && |pkt| >= 78
            && ns.routerMac == pkt[6..12] && As16(ns.router.Bits()) == pkt[22..38]
            && !ns.dest.Invalid? && As16(ns.dest.Bits()) == pkt[38..54]
            && !ns.target.Invalid? && As16(ns.target.Bits()) == pkt[62..78]
  {
    var body := Datagram(pkt);
    assert body[0] == pkt[54];
    assert Half(pkt, 12) == 0x86dd;
    FilterMeaning(pkt);
    DatagramTarget(pkt);
    UnmapRoundTrip(pkt[22..38]);
    UnmapRoundTrip(pkt[38..54]);
    UnmapRoundTrip(pkt[62..78]);
  }

  /** A captured packet can be answered exactly when neither the address it came from nor the
      address it asked for is an IPv4-mapped one. */
  lemma AnswerableIff(pkt: Packet)
    requires Capture(pkt).Some?
    ensures Capture(pkt).value.Answerable() <==>
            From16(pkt[22..38]) / TWO_32 != 0xffff && |pkt| >= 78 && From16(pkt[62..78]) / TWO_32 != 0xffff
  {
    DatagramTarget(pkt);
  }

  /** The answer to any captured packet goes back to the link and network address it came
      from, carries the address it asked for as source and target, and sets the override flag
      exactly when the solicitation was sent to a multicast address. */
  lemma AnswerGoesBack(pkt: Packet, mac: seq<Byte>)
    requires Capture(pkt).Some? && |mac| == 6
    ensures var ns, r := Capture(pkt).value, Respond(Capture(pkt).value, mac);
            (r.Ok? <==> ns.Answerable())
            && (r.Ok? ==>
                  |pkt| >= 78
                  && Advertises(r.value, pkt[6..12], mac, pkt[62..78], pkt[22..38],
                                if ns.dest.IsMulticast() then 0xe0 else 0xc0))
  {
    var ns := Capture(pkt).value;
    if ns.Answerable() {
      var p := ResponseParts(ns, mac);
      FrameFields(p);
      MessageFields(p);
      CapturedFields(pkt);
    }
  }

  /** A solicitation sent to an address outside the mapped range is to a multicast address
      exactly when its destination's first byte, byte 38 of the packet, is 0xff. */
  lemma MulticastDestination(pkt: Packet)
    requires Capture(pkt).Some? && Capture(pkt).value.dest.V6?
    ensures Capture(pkt).value.dest.IsMulticast() <==> pkt[38] == 0xff
  {
    FirstByteLeads(pkt[38..54]);
  }

  /** Respond to a captured Solicit frame. From a mapped source no answer can be built. */
  lemma SolicitAnswered(hostMac: seq<Byte>, mac: seq<Byte>, gateway: Bits128, source: Bits128)
    requires |mac| == 6 && |hostMac| == 6
    ensures var f := Solicit(hostMac, gateway, source).value;
            Capture(f).Some?
            && Respond(Capture(f).value, mac)
               == if V6(gateway).Unmap().V4? || V6(source).Unmap().V4? then Err(NotIPv6)
                  else Ok(Frame(Parts(mac, hostMac, As16(gateway), As16(source),
                                      Message(ADVERTISEMENT, 0xe0, As16(gateway), TARGET_LINK_ADDRESS, mac))))
  {
    SolicitRoundTrip(hostMac, gateway, source);
    GroupOf(gateway);
  }

  /** ::ffff:192.0.2.1 asks for 2001:db8::1 and is captured, and no answer can be built. */
  lemma MappedSourceUnanswered(hostMac: seq<Byte>, mac: seq<Byte>)
    requires |mac| == 6 && |hostMac| == 6
    ensures var f := Solicit(hostMac, 0x2001_0db8_0000_0000_0000_0000_0000_0001, 0xffff_c000_0201).value;
            Accepts(f) && Capture(f).Some?
            && Capture(f).value.router == V4(0xc000_0201) && Respond(Capture(f).value, mac) == Err(NotIPv6)
  {
    hide Frame, Capture, Accepts, Solicit, SolicitedNode;
    SolicitRoundTrip(hostMac, 0x2001_0db8_0000_0000_0000_0000_0000_0001, 0xffff_c000_0201);
  }
}
