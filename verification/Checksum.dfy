/** The Internet checksum of section 8.1 of RFC 8200, over bytes. */
module Checksum {
  import opened Addresses

  /** The sum of the big-endian 16-bit words of a byte sequence. */
  function Sum(bs: seq<Byte>): nat {
    if |bs| == 0 then 0
    else if |bs| == 1 then bs[0] * 256
    else bs[0] * 256 + bs[1] + Sum(bs[2..])
  }

  /** Adding the carries back in until sixteen bits remain. */
  function Fold(n: nat): (r: nat)
    ensures r <= 0xffff
  {
    if n <= 0xffff then n else Fold(n / 0x10000 + n % 0x10000)
  }

  /** The value stored in the checksum field when the other bytes sum to n. */
  function Complement(n: nat): (r: nat)
    ensures r <= 0xffff
  {
    0xffff - Fold(n)
  }

  /** Folding keeps the value modulo 0xffff and never loses a nonzero sum. */
  lemma {:induction false} FoldResidue(n: nat)
    ensures Fold(n) % 0xffff == n % 0xffff
    ensures Fold(n) == 0 <==> n == 0
  {
    if n > 0xffff {
      var q, r := n / 0x10000, n % 0x10000;
      assert n == q * 0xffff + (q + r);
      assert n % 0xffff == (q + r) % 0xffff;
      FoldResidue(q + r);
    }
  }

  lemma SameResidue(a: nat, b: nat)
    requires a % 0xffff == b % 0xffff
    ensures exists k :: a - b == k * 0xffff
  {
    assert a - b == (a / 0xffff - b / 0xffff) * 0xffff;
  }

  lemma MultipleResidue(k: int)
    ensures (k * 0xffff) % 0xffff == 0
  {
  }

  /** Storing the complement makes the whole sum fold to 0xffff, whatever the other bytes are. */
  lemma ComplementVerifies(n: nat)
    ensures Fold(n + Complement(n)) == 0xffff
  {
    FoldResidue(n);
    SameResidue(n, Fold(n));
    var k :| n - Fold(n) == k * 0xffff;
    MultipleResidue(k + 1);
    FoldResidue(n + Complement(n));
  }

  lemma {:induction false} SumSplits(a: seq<Byte>, b: seq<Byte>)
    requires |a| % 2 == 0
    ensures Sum(a + b) == Sum(a) + Sum(b)
    decreases |a|
  {
    if |a| == 0 {
      assert a + b == b;
    } else {
      assert (a + b)[2..] == a[2..] + b;
      SumSplits(a[2..], b);
    }
  }
}
