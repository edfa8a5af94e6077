/** The packet filter of ndp.go: an eleven-instruction classic BPF program, the machine
    that runs it, and the filter expression it was compiled from. */
module Bpf {
  import opened Addresses

  type Packet = seq<Byte>

  datatype RawInstruction = RawInstruction(op: nat, jt: nat, jf: nat, k: nat)

  /** The 16-bit field at an offset, in network byte order. */
  function Half(pkt: Packet, offset: nat): nat
    requires offset + 2 <= |pkt|
  {
    var high: nat, low: nat := pkt[offset], pkt[offset + 1];
    high * 256 + low
  }

  /** Runs a program from instruction pc with accumulator acc; the result is the number of
      bytes to accept, and 0 drops the packet. A load outside the packet drops it, as do an
      unknown operation and a jump past the end. Jumps only go forward. */
  function Run(prog: seq<RawInstruction>, pkt: Packet, pc: nat, acc: nat): nat
    decreases |prog| - pc
  {
    if pc >= |prog| then 0
    else
      var i := prog[pc];
      if i.op == 0x28 then  // load the 16 bits at offset k
        if i.k + 2 <= |pkt| then Run(prog, pkt, pc + 1, Half(pkt, i.k)) else 0
      else if i.op == 0x30 then  // load the byte at offset k
        if i.k < |pkt| then Run(prog, pkt, pc + 1, pkt[i.k]) else 0
      else if i.op == 0x15 then  // jump on equality with k
        Run(prog, pkt, pc + 1 + (if acc == i.k then i.jt else i.jf), acc)
      else if i.op == 0x06 then  // return k
        i.k
      else 0
  }

  const FILTER: seq<RawInstruction> := [
    RawInstruction(0x28, 0, 0, 0x0000000c),
    RawInstruction(0x15, 0, 8, 0x000086dd),
    RawInstruction(0x30, 0, 0, 0x00000014),
    RawInstruction(0x15, 3, 0, 0x0000003a),
    RawInstruction(0x15, 0, 5, 0x0000002c),
    RawInstruction(0x30, 0, 0, 0x00000036),
    RawInstruction(0x15, 0, 3, 0x0000003a),
    RawInstruction(0x30, 0, 0, 0x00000036),
    RawInstruction(0x15, 0, 1, 0x00000087),
    RawInstruction(0x06, 0, 0, 0x00040000),
    RawInstruction(0x06, 0, 0, 0x00000000)
  ]

  predicate Accepts(pkt: Packet) {
    Run(FILTER, pkt, 0, 0) != 0
  }

  // ---------------------------------------------------------------- filter expressions

  /** Comparisons of packet fields, combined from left to right. */
  datatype Expr =
    | HalfIs(offset: nat, value: nat)
    | ByteIs(offset: nat, value: nat)
    | And(left: Expr, right: Expr)
    | Or(left: Expr, right: Expr)

  /** A field outside the packet stops the evaluation and drops the packet. */
  datatype Verdict = Yes | No | Stop

  function Eval(e: Expr, pkt: Packet): Verdict {
    match e
    case HalfIs(o, v) =>
      if o + 2 > |pkt| then Stop else if Half(pkt, o) == v then Yes else No
    case ByteIs(o, v) =>
      if o >= |pkt| then Stop else if pkt[o] == v then Yes else No
    case And(l, r) => (match Eval(l, pkt) case Yes => Eval(r, pkt) case No => No case Stop => Stop)
    case Or(l, r) => (match Eval(l, pkt) case Yes => Yes case No => Eval(r, pkt) case Stop => Stop)
  }

  const ETHERNET: nat := 14

  /** `ip6`: the EtherType names IPv6. */
  function Ip6(): Expr { HalfIs(12, 0x86dd) }

  /** `ip6[n] == v`: byte n of the IPv6 packet. */
  function Ip6Byte(n: nat, v: nat): Expr { ByteIs(ETHERNET + n, v) }

  /** `icmp6`: the next header is ICMPv6, directly or after one fragment header. */
  function Icmp6(): Expr {
    And(Ip6(), Or(Ip6Byte(6, 58), And(Ip6Byte(6, 44), Ip6Byte(40, 58))))
  }

  /** `icmp6 && ip6[40] == 135`. */
  function Source(): Expr {
    And(Icmp6(), And(Ip6(), Ip6Byte(40, 135)))
  }

  // ---------------------------------------------------------------- the filter's meaning

  /** What the filter amounts to on the bytes of a packet. */
  predicate IsSolicitationHeader(pkt: Packet) {
    |pkt| >= 55 && pkt[12] == 0x86 && pkt[13] == 0xdd && pkt[20] == 58 && pkt[54] == 135
  }

  /** From the next-header test on. */
  lemma RunFromNextHeader(pkt: Packet)
    requires |pkt| > 20
    ensures Run(FILTER, pkt, 3, pkt[20]) ==
            if |pkt| >= 55 && pkt[20] == 58 && pkt[54] == 135 then 0x40000 else 0
  {
    var acc := pkt[20];
    forall a: nat
      ensures Run(FILTER, pkt, 10, a) == 0 && Run(FILTER, pkt, 9, a) == 0x40000
      ensures Run(FILTER, pkt, 8, a) == if a == 135 then 0x40000 else 0
    {
      assert FILTER[10].op == 0x06 && FILTER[9].op == 0x06 && FILTER[8].op == 0x15;
    }
    assert Run(FILTER, pkt, 7, acc) == if |pkt| > 54 && pkt[54] == 135 then 0x40000 else 0 by {
      assert FILTER[7].op == 0x30;
    }
    assert FILTER[3] == RawInstruction(0x15, 3, 0, 58);
    if acc != 58 {
      assert FILTER[4] == RawInstruction(0x15, 0, 5, 44);
      if acc == 44 && |pkt| > 54 {
        // The byte tested for ICMPv6 behind a fragment header is the one tested for 135.
        assert FILTER[5] == RawInstruction(0x30, 0, 0, 54);
        assert FILTER[6] == RawInstruction(0x15, 0, 3, 58);
        assert Run(FILTER, pkt, 7, pkt[54]) == if pkt[54] == 135 then 0x40000 else 0;
        assert Run(FILTER, pkt, 6, pkt[54]) == 0;
      }
      assert Run(FILTER, pkt, 4, acc) == 0;
    }
  }

  lemma SourceMeaning(pkt: Packet)
    ensures Eval(Source(), pkt) == Yes <==> IsSolicitationHeader(pkt)
  {
    var fragment := And(Ip6Byte(6, 44), Ip6Byte(40, 58));
    var header := Or(Ip6Byte(6, 58), fragment);
    var message := And(Ip6(), Ip6Byte(40, 135));
    if |pkt| >= 14 {
      assert Half(pkt, 12) == 0x86dd <==> pkt[12] == 0x86 && pkt[13] == 0xdd;
    }
    assert Eval(Ip6(), pkt) == Yes <==> |pkt| >= 14 && pkt[12] == 0x86 && pkt[13] == 0xdd;
    assert forall n: nat, v: nat ::
        Eval(Ip6Byte(n, v), pkt) == Yes <==> |pkt| > 14 + n && pkt[14 + n] == v;
    assert Eval(fragment, pkt) == Yes ==> |pkt| > 54 && pkt[54] == 58;
    assert Eval(header, pkt) == Yes <==>
           |pkt| > 20 && (pkt[20] == 58 || Eval(fragment, pkt) == Yes);
    assert Eval(message, pkt) == Yes <==>
           Eval(Ip6(), pkt) == Yes && |pkt| > 54 && pkt[54] == 135;
    assert Icmp6() == And(Ip6(), header);
    assert Eval(Icmp6(), pkt) == Yes <==> Eval(Ip6(), pkt) == Yes && Eval(header, pkt) == Yes;
    assert Source() == And(Icmp6(), message);
  }

  /** For every packet of any length the program, its source expression and the byte test
      agree, and an accepted packet is captured with the program's full snapshot length. */
  lemma FilterMeaning(pkt: Packet)
    ensures Accepts(pkt) <==> Eval(Source(), pkt) == Yes
    ensures Accepts(pkt) <==> IsSolicitationHeader(pkt)
    ensures Accepts(pkt) ==> Run(FILTER, pkt, 0, 0) == 0x40000
  {
    SourceMeaning(pkt);
    assert FILTER[0] == RawInstruction(0x28, 0, 0, 12);
    assert FILTER[1] == RawInstruction(0x15, 0, 8, 0x86dd);
    assert FILTER[2] == RawInstruction(0x30, 0, 0, 20);
    assert FILTER[10].op == 0x06;
    if |pkt| >= 14 {
      var kind := Half(pkt, 12);
      assert kind == 0x86dd <==> pkt[12] == 0x86 && pkt[13] == 0xdd;
      assert Run(FILTER, pkt, 0, 0) == Run(FILTER, pkt, 1, kind);
      if kind == 0x86dd && |pkt| > 20 {
        RunFromNextHeader(pkt);
        assert Run(FILTER, pkt, 1, kind) == Run(FILTER, pkt, 2, kind);
      }
    }
  }

  /** The branch for a fragment header never accepts: it asks one byte to be 58 and 135. */
  lemma FragmentsNeverAccepted(pkt: Packet)
    requires |pkt| > 20 && pkt[20] == 44
    ensures !Accepts(pkt)
  {
    FilterMeaning(pkt);
  }
}
