/** Ethernet frames that carry UDP over IPv4, and their checksums computed from scratch. */
module Packet {
  import opened Words
  import Checksum

  const ETH_DST := 0
  const ETH_SRC := 6
  const ETH_TYPE := 12
  const IP_VIHL := 14
  const IP_FRAGS := 20
  const IP_PROTO := 23
  const IP_CHECK := 24
  const IP_SRC := 26
  const IP_DST := 30
  const UDP_SRC := 34
  const UDP_DST := 36
  const UDP_LEN := 38
  const UDP_CHECK := 40
  const PAYLOAD := 42

  const PROTO_UDP: u8 := 17

  /** The headers the program reads are all inside the frame. */
  predicate HasHeaders(f: seq<u8>) {
    PAYLOAD <= |f|
  }

  /** The UDP length field names a datagram that lies inside the frame. */
  predicate HasDatagram(f: seq<u8>) {
    HasHeaders(f) && 8 <= Be16(f, UDP_LEN) && UDP_SRC + Be16(f, UDP_LEN) <= |f|
  }

  /** The sum of the 16-bit words of `f[lo..hi]`, an odd last byte being padded with zero. */
  function WordSum(f: seq<u8>, lo: nat, hi: nat): nat
    requires lo <= hi <= |f|
    decreases hi - lo
  {
    if lo == hi then 0
    else if lo + 1 == hi then (var b: int := f[lo]; b * 256)
    else Be16(f, lo) + WordSum(f, lo + 2, hi)
  }

  /** One's-complement addition: carries out of the top bit are added back at the bottom. */
  function EndAroundCarry(n: nat): u16 {
    if n < 0x1_0000 then n else EndAroundCarry(n % 0x1_0000 + n / 0x1_0000)
  }

  /** What the IPv4 header checksum covers (section 3.1 of RFC 791). */
  function IpCovered(f: seq<u8>): nat
    requires HasHeaders(f)
  {
    WordSum(f, IP_VIHL, UDP_SRC)
  }

  /** What the UDP checksum covers: the pseudo-header and the datagram (the "Fields" part of RFC 768). */
  function UdpCovered(f: seq<u8>): nat
    requires HasDatagram(f)
  {
    WordSum(f, IP_SRC, UDP_SRC) + PROTO_UDP + Be16(f, UDP_LEN) + WordSum(f, UDP_SRC, UDP_SRC + Be16(f, UDP_LEN))
  }

  function IpChecksum(f: seq<u8>): u16
    requires HasHeaders(f)
  {
    0xFFFF - EndAroundCarry(IpCovered(Put16(f, IP_CHECK, 0)))
  }

  /** A computed zero is transmitted as all ones. */
  function UdpChecksum(f: seq<u8>): u16
    requires HasDatagram(f)
  {
    var c := 0xFFFF - EndAroundCarry(UdpCovered(Put16(f, UDP_CHECK, 0)));
    if c == 0 then 0xFFFF else c
  }

  /** The receiver's test: the sum with the checksum included is all ones. */
  predicate IpVerifies(f: seq<u8>)
    requires HasHeaders(f)
  {
    EndAroundCarry(IpCovered(f)) == 0xFFFF
  }

  predicate UdpVerifies(f: seq<u8>)
    requires HasDatagram(f)
  {
    EndAroundCarry(UdpCovered(f)) == 0xFFFF
  }

  lemma {:induction false} EndAroundCarryIsResidue(n: nat)
    ensures EndAroundCarry(n) == if n == 0 then 0 else if n % Checksum.M == 0 then 0xFFFF else n % Checksum.M
  {
    if n >= 0x1_0000 {
      var n' := n % 0x1_0000 + n / 0x1_0000;
      EndAroundCarryIsResidue(n');
      assert n == n' % Checksum.M + Checksum.M * (n' / Checksum.M + n / 0x1_0000);
      Checksum.ResidueIsUnique(n' % Checksum.M, n, n' / Checksum.M + n / 0x1_0000);
    }
  }

  /** The sum depends on the summed bytes only. */
  lemma {:induction false} WordSumFrame(f: seq<u8>, g: seq<u8>, lo: nat, hi: nat)
    requires lo <= hi <= |f| && hi <= |g|
    requires forall j :: lo <= j < hi ==> f[j] == g[j]
    ensures WordSum(f, lo, hi) == WordSum(g, lo, hi)
    decreases hi - lo
  {
    if lo + 2 <= hi {
      WordSumFrame(f, g, lo + 2, hi);
    }
  }

  lemma IpHeaderWords(f: seq<u8>)
    requires HasHeaders(f)
    ensures IpCovered(f)
         == Be16(f, 14) + Be16(f, 16) + Be16(f, 18) + Be16(f, 20) + Be16(f, 22) + Be16(f, IP_CHECK)
            + Be16(f, IP_SRC) + Be16(f, IP_SRC + 2) + Be16(f, IP_DST) + Be16(f, IP_DST + 2)
  {
    assert WordSum(f, 26, 34) == Be16(f, 26) + Be16(f, 28) + WordSum(f, 30, 34);
    assert WordSum(f, 18, 34) == Be16(f, 18) + Be16(f, 20) + Be16(f, 22) + Be16(f, 24) + WordSum(f, 26, 34);
  }

  lemma UdpWords(f: seq<u8>)
    requires HasDatagram(f)
    ensures UdpCovered(f)
         == Be16(f, IP_SRC) + Be16(f, IP_SRC + 2) + Be16(f, IP_DST) + Be16(f, IP_DST + 2)
            + PROTO_UDP + 2 * Be16(f, UDP_LEN) + Be16(f, UDP_SRC) + Be16(f, UDP_DST) + Be16(f, UDP_CHECK)
            + WordSum(f, PAYLOAD, UDP_SRC + Be16(f, UDP_LEN))
  {
    var end := UDP_SRC + Be16(f, UDP_LEN);
    assert WordSum(f, 26, 34) == Be16(f, 26) + Be16(f, 28) + WordSum(f, 30, 34);
    assert WordSum(f, 34, end) == Be16(f, 34) + Be16(f, 36) + WordSum(f, 38, end);
    assert WordSum(f, 38, end) == Be16(f, 38) + Be16(f, 40) + WordSum(f, 42, end);
  }

  /** Replacing a word that is summed as a word moves the sum by the difference. */
  lemma {:induction false} WordSumPut(f: seq<u8>, lo: nat, hi: nat, at: nat, v: u16)
    requires lo <= at && at + 2 <= hi <= |f| && (at - lo) % 2 == 0
    ensures WordSum(Put16(f, at, v), lo, hi) == WordSum(f, lo, hi) - Be16(f, at) + v
    decreases at - lo
  {
    if lo == at {
      WordSumFrame(f, Put16(f, at, v), lo + 2, hi);
    } else {
      WordSumPut(f, lo + 2, hi, at, v);
    }
  }

  lemma WithoutIpCheck(f: seq<u8>)
    requires HasHeaders(f)
    ensures IpCovered(Put16(f, IP_CHECK, 0)) == IpCovered(f) - Be16(f, IP_CHECK)
    ensures f[IP_VIHL] != 0 ==> IpCovered(Put16(f, IP_CHECK, 0)) >= 0x100
  {
    WordSumPut(f, IP_VIHL, UDP_SRC, IP_CHECK, 0);
    FirstWordCounts(Put16(f, IP_CHECK, 0));
  }

  lemma FirstWordCounts(f: seq<u8>)
    requires HasHeaders(f)
    ensures IpCovered(f) >= f[IP_VIHL] as int * 0x100
  {
  }

  lemma WithoutUdpCheck(f: seq<u8>)
    requires HasDatagram(f)
    ensures UdpCovered(Put16(f, UDP_CHECK, 0)) == UdpCovered(f) - Be16(f, UDP_CHECK)
    ensures UdpCovered(Put16(f, UDP_CHECK, 0)) > 0
  {
    WordSumPut(f, UDP_SRC, UDP_SRC + Be16(f, UDP_LEN), UDP_CHECK, 0);
    WordSumFrame(f, Put16(f, UDP_CHECK, 0), IP_SRC, UDP_SRC);
  }

  /** The complement of a positive sum, as a residue. */
  lemma ComplementIsResidue(n: nat)
    requires n > 0
    ensures 0xFFFF - EndAroundCarry(n) == (0 - n as int) % Checksum.M
    ensures EndAroundCarry(n) == 0xFFFF <==> n % Checksum.M == 0
  {
    EndAroundCarryIsResidue(n);
    var r := EndAroundCarry(n);
    Checksum.ResidueIsUnique(0xFFFF - r, 0 - n as int, if r == 0xFFFF then -(n / Checksum.M) else -1 - n / Checksum.M);
  }

  /** From scratch, the IPv4 checksum is the complement of the rest of the header, and never 0xFFFF. */
  lemma IpChecksumIsResidue(f: seq<u8>)
    requires HasHeaders(f) && f[IP_VIHL] != 0
    ensures IpChecksum(f) == (Be16(f, IP_CHECK) - IpCovered(f)) % Checksum.M
    ensures IpVerifies(f) <==> IpCovered(f) % Checksum.M == 0
  {
    WithoutIpCheck(f);
    var rest: nat, all: nat := IpCovered(Put16(f, IP_CHECK, 0)), IpCovered(f);
    assert 0 - rest as int == Be16(f, IP_CHECK) as int - all;
    ComplementIsResidue(rest);
    ComplementIsResidue(all);
  }

  /** From scratch, the UDP checksum is the nonzero number below 2^16 that makes the whole sum vanish. */
  lemma UdpChecksumIsResidue(f: seq<u8>)
    requires HasDatagram(f)
    ensures var r := (Be16(f, UDP_CHECK) - UdpCovered(f)) % Checksum.M;
            UdpChecksum(f) == if r == 0 then 0xFFFF else r
    ensures UdpVerifies(f) <==> UdpCovered(f) % Checksum.M == 0
  {
    WithoutUdpCheck(f);
    ComplementIsResidue(UdpCovered(Put16(f, UDP_CHECK, 0)));
    ComplementIsResidue(UdpCovered(f));
  }
}
