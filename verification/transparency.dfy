/** What a translation means for the receiver: the checksums, the rewritten fields and the way back. */
module Transparency {
  import opened Words
  import opened Common
  import opened Packet
  import opened Rewrite
  import C = Checksum

  /** The endpoint that the translation does not touch. */
  function Other(p: Endpoint): Endpoint {
    if p.Source? then Destination else Source
  }

  /** Outside the two checksums, one address and one port, no byte changes. */
  lemma OnlyFourFieldsChange(p: Endpoint, xlat: NatData, f: seq<u8>, j: nat)
    requires HasHeaders(f) && j < |f|
    requires !Rewrites(p, j)
    ensures Translated(p, xlat, f)[j] == f[j]
  {
  }

  lemma TranslatedFields(p: Endpoint, xlat: NatData, f: seq<u8>)
    requires HasHeaders(f)
    ensures var g := Translated(p, xlat, f);
            var udp := Be16(f, UDP_CHECK);
            && Be32(g, p.AddrAt()) == xlat.natAddr
            && Be32(g, Other(p).AddrAt()) == Be32(f, Other(p).AddrAt())
            && Be16(g, p.PortAt()) == (if udp == 0 then Be16(f, p.PortAt()) else xlat.natPort)
            && Be16(g, Other(p).PortAt()) == Be16(f, Other(p).PortAt())
            && Be16(g, IP_CHECK) == C.Replaced(Be16(f, IP_CHECK), Be32(f, p.AddrAt()), xlat.natAddr)
            && Be16(g, UDP_CHECK) == (if udp == 0 then 0 else
                 ReplacedUdp(udp, Be16(f, p.PortAt()), xlat.natPort, Be32(f, p.AddrAt()), xlat.natAddr))
  {
    PortTranslatedKeeps(p, xlat, f);
  }

  /** `g` agrees with `f` on every word that the translation of `p` leaves alone. */
  ghost predicate SameButFor(p: Endpoint, f: seq<u8>, g: seq<u8>) {
    && |f| == |g| && HasHeaders(f)
    && Be16(g, 14) == Be16(f, 14) && Be16(g, 16) == Be16(f, 16) && Be16(g, 18) == Be16(f, 18)
    && Be16(g, 20) == Be16(f, 20) && Be16(g, 22) == Be16(f, 22) && Be16(g, UDP_LEN) == Be16(f, UDP_LEN)
    && Be16(g, Other(p).AddrAt()) == Be16(f, Other(p).AddrAt())
    && Be16(g, Other(p).AddrAt() + 2) == Be16(f, Other(p).AddrAt() + 2)
    && Be16(g, Other(p).PortAt()) == Be16(f, Other(p).PortAt())
    && (forall j :: PAYLOAD <= j < |f| ==> g[j] == f[j])
  }

  lemma TranslatedKeepsTheRest(p: Endpoint, xlat: NatData, f: seq<u8>)
    requires HasHeaders(f)
    ensures SameButFor(p, f, Translated(p, xlat, f))
  {
    TranslatedFields(p, xlat, f);
  }

  /** A 32-bit word is congruent to the sum of its halves. */
  lemma HalvesAreCongruent(f: seq<u8>, i: nat)
    requires i + 4 <= |f|
    ensures Be32(f, i) == Be16(f, i) + Be16(f, i + 2) + C.M * Be16(f, i)
  {
  }

  /** The IPv4 sum moves by the change of the checksum and of the address, up to multiples of `M`. */
  lemma IpSumShift(p: Endpoint, f: seq<u8>, g: seq<u8>) returns (q: int)
    requires SameButFor(p, f, g)
    ensures IpCovered(g) - IpCovered(f)
         == Be16(g, IP_CHECK) - Be16(f, IP_CHECK) + Be32(g, p.AddrAt()) - Be32(f, p.AddrAt()) + C.M * q
  {
    var a := p.AddrAt();
    q := Be16(f, a) - Be16(g, a);
    assert IpCovered(g) - IpCovered(f)
        == Be16(g, IP_CHECK) - Be16(f, IP_CHECK) + Be16(g, a) + Be16(g, a + 2) - Be16(f, a) - Be16(f, a + 2) by {
      IpHeaderWords(f);
      IpHeaderWords(g);
    }
    HalvesAreCongruent(f, a);
    HalvesAreCongruent(g, a);
  }

  lemma UdpWordShift(p: Endpoint, f: seq<u8>, g: seq<u8>)
    requires SameButFor(p, f, g) && HasDatagram(f)
    ensures var a, t := p.AddrAt(), p.PortAt();
            UdpCovered(g) - UdpCovered(f)
            == Be16(g, UDP_CHECK) - Be16(f, UDP_CHECK) + Be16(g, t) - Be16(f, t)
               + Be16(g, a) + Be16(g, a + 2) - Be16(f, a) - Be16(f, a + 2)
  {
    WordSumFrame(f, g, PAYLOAD, UDP_SRC + Be16(f, UDP_LEN));
    UdpWords(f);
    UdpWords(g);
    if p.Source? {
      assert Be16(g, IP_DST) == Be16(f, IP_DST) && Be16(g, IP_DST + 2) == Be16(f, IP_DST + 2);
    } else {
      assert Be16(g, IP_SRC) == Be16(f, IP_SRC) && Be16(g, IP_SRC + 2) == Be16(f, IP_SRC + 2);
    }
  }

  /** The UDP sum moves by the change of the checksum, the port and the address, up to multiples of `M`. */
  lemma UdpSumShift(p: Endpoint, f: seq<u8>, g: seq<u8>) returns (q: int)
    requires SameButFor(p, f, g) && HasDatagram(f)
    ensures UdpCovered(g) - UdpCovered(f)
         == Be16(g, UDP_CHECK) - Be16(f, UDP_CHECK) + (Be16(g, p.PortAt()) + Be32(g, p.AddrAt()))
            - (Be16(f, p.PortAt()) + Be32(f, p.AddrAt())) + C.M * q
  {
    var a := p.AddrAt();
    q := Be16(f, a) - Be16(g, a);
    UdpWordShift(p, f, g);
    HalvesAreCongruent(f, a);
    HalvesAreCongruent(g, a);
  }

  /**
   * The IPv4 header checksum after the translation is exactly the one computed from scratch over the rewritten
   * header if the original header verified, and not otherwise: a damaged header stays detectable.
   */
  lemma IpChecksumIsExact(p: Endpoint, xlat: NatData, f: seq<u8>)
    requires HasHeaders(f) && f[IP_VIHL] != 0
    ensures var g := Translated(p, xlat, f);
            && IpCovered(g) % C.M == IpCovered(f) % C.M
            && (Be16(g, IP_CHECK) == IpChecksum(g) <==> IpVerifies(f))
            && Be16(g, IP_CHECK) <= 0xFFFE
  {
    var g := Translated(p, xlat, f);
    TranslatedFields(p, xlat, f);
    TranslatedKeepsTheRest(p, xlat, f);
    OnlyFourFieldsChange(p, xlat, f, IP_VIHL);
    IpUpdateIsExact(p, f, g);
  }

  lemma IpUpdateIsExact(p: Endpoint, f: seq<u8>, g: seq<u8>)
    requires SameButFor(p, f, g) && f[IP_VIHL] != 0 && g[IP_VIHL] != 0
    requires Be16(g, IP_CHECK) == C.Replaced(Be16(f, IP_CHECK), Be32(f, p.AddrAt()), Be32(g, p.AddrAt()))
    ensures IpCovered(g) % C.M == IpCovered(f) % C.M
    ensures Be16(g, IP_CHECK) == IpChecksum(g) <==> IpVerifies(f)
  {
    IpSumIsKept(p, f, g);
    IpChecksumIsResidue(f);
    IpChecksumMatches(g);
  }

  lemma IpSumIsKept(p: Endpoint, f: seq<u8>, g: seq<u8>)
    requires SameButFor(p, f, g)
    requires Be16(g, IP_CHECK) == C.Replaced(Be16(f, IP_CHECK), Be32(f, p.AddrAt()), Be32(g, p.AddrAt()))
    ensures IpCovered(g) % C.M == IpCovered(f) % C.M
  {
    var q := IpSumShift(p, f, g);
    ReplacedIsCongruent(Be16(f, IP_CHECK), Be32(f, p.AddrAt()), Be32(g, p.AddrAt()));
    ReplacedKeepsSum(Be16(f, IP_CHECK), Be16(g, IP_CHECK), Be32(f, p.AddrAt()), Be32(g, p.AddrAt()),
                     IpCovered(f), IpCovered(g), q);
  }

  lemma ReplacedIsCongruent(c: u16, from: u32, to: u32)
    ensures C.Replaced(c, from, to) % C.M == (c + from - to) % C.M
  {
  }

  /** A stored checksum other than 0xFFFF is the computed one exactly when the receiver's test passes. */
  lemma IpChecksumMatches(f: seq<u8>)
    requires HasHeaders(f) && f[IP_VIHL] != 0 && Be16(f, IP_CHECK) < C.M
    ensures Be16(f, IP_CHECK) == IpChecksum(f) <==> IpCovered(f) % C.M == 0
  {
    var c, sum := Be16(f, IP_CHECK), IpCovered(f);
    IpChecksumIsResidue(f);
    ResidueMatches(c, sum);
  }

  lemma ReplacedKeepsSum(c: u16, c': u16, from: int, to: int, sum: int, sum': int, q: int)
    requires c' % C.M == (c + from - to) % C.M
    requires sum' - sum == c' - c + to - from + C.M * q
    ensures sum' % C.M == sum % C.M
  {
    var y := c + from - to;
    assert c' - y == C.M * (c' / C.M - y / C.M);
    assert sum' == sum % C.M + C.M * (sum / C.M + c' / C.M - y / C.M + q);
    C.ResidueIsUnique(sum % C.M, sum', sum / C.M + c' / C.M - y / C.M + q);
  }

  /** A checksum below `M` completes a sum that contains it exactly when that sum vanishes. */
  lemma ResidueMatches(c: int, sum: int)
    requires 0 <= c < C.M
    ensures c == (c - sum) % C.M <==> sum % C.M == 0
  {
    if sum % C.M == 0 {
      C.ResidueIsUnique(c, c - sum, -(sum / C.M));
    }
    if c == (c - sum) % C.M {
      C.ResidueIsUnique(0, sum, -((c - sum) / C.M));
    }
  }

  /**
   * A nonzero UDP checksum after the translation is exactly the one computed from scratch over the rewritten
   * pseudo-header, header and payload if the original one was, and not otherwise. Any payload length is covered.
   */
  lemma UdpChecksumIsExact(p: Endpoint, xlat: NatData, f: seq<u8>)
    requires HasDatagram(f) && Be16(f, UDP_CHECK) != 0
    ensures var g := Translated(p, xlat, f);
            && HasDatagram(g)
            && UdpCovered(g) % C.M == UdpCovered(f) % C.M
            && (Be16(g, UDP_CHECK) == UdpChecksum(g) <==> Be16(f, UDP_CHECK) == UdpChecksum(f))
            && (UdpVerifies(g) <==> UdpVerifies(f))
            && Be16(g, UDP_CHECK) != 0
  {
    var g := Translated(p, xlat, f);
    TranslatedFields(p, xlat, f);
    TranslatedKeepsTheRest(p, xlat, f);
    UdpUpdateIsExact(p, f, g);
  }

  lemma UdpUpdateIsExact(p: Endpoint, f: seq<u8>, g: seq<u8>)
    requires SameButFor(p, f, g) && HasDatagram(f) && Be16(f, UDP_CHECK) != 0
    requires Be16(g, UDP_CHECK) == ReplacedUdp(Be16(f, UDP_CHECK), Be16(f, p.PortAt()), Be16(g, p.PortAt()),
                                               Be32(f, p.AddrAt()), Be32(g, p.AddrAt()))
    ensures UdpCovered(g) % C.M == UdpCovered(f) % C.M && Be16(g, UDP_CHECK) != 0
    ensures Be16(g, UDP_CHECK) == UdpChecksum(g) <==> Be16(f, UDP_CHECK) == UdpChecksum(f)
    ensures UdpVerifies(g) <==> UdpVerifies(f)
  {
    var a, ck, ck' := p.AddrAt(), Be16(f, UDP_CHECK), Be16(g, UDP_CHECK);
    var port, port' := Be16(f, p.PortAt()), Be16(g, p.PortAt());
    ReplacedUdpResidue(ck, port, port', Be32(f, a), Be32(g, a));
    var q := UdpSumShift(p, f, g);
    ReplacedKeepsSum(ck, ck', port + Be32(f, a), port' + Be32(g, a), UdpCovered(f), UdpCovered(g), q);
    UdpChecksumIsResidue(f);
    UdpChecksumIsResidue(g);
    UdpChecksumMatches(f);
    UdpChecksumMatches(g);
  }

  lemma ReplacedUdpResidue(c: u16, port: u16, port': u16, addr: u32, addr': u32)
    ensures ReplacedUdp(c, port, port', addr, addr') % C.M == (c + (port + addr) - (port' + addr')) % C.M
    ensures ReplacedUdp(c, port, port', addr, addr') != 0
  {
    ReplacedUdpIsNonzeroResidue(c, port, port', addr, addr');
    assert c + (port + addr) - (port' + addr') == c + (port + addr - (port' + addr'));
  }

  /** A nonzero stored checksum is the computed one exactly when the receiver's test passes. */
  lemma UdpChecksumMatches(f: seq<u8>)
    requires HasDatagram(f) && Be16(f, UDP_CHECK) != 0
    ensures Be16(f, UDP_CHECK) == UdpChecksum(f) <==> UdpVerifies(f)
  {
    UdpChecksumIsResidue(f);
    var c, sum := Be16(f, UDP_CHECK), UdpCovered(f);
    if c == 0xFFFF {
      ShiftByM(sum, c);
    } else {
      ResidueMatches(c, sum);
    }
  }

  lemma ShiftByM(sum: int, c: int)
    requires c == C.M
    ensures (c - sum) % C.M == 0 <==> sum % C.M == 0
  {
    if sum % C.M == 0 {
      C.ResidueIsUnique(0, c - sum, 1 - sum / C.M);
    }
    if (c - sum) % C.M == 0 {
      C.ResidueIsUnique(0, sum, 1 - (c - sum) / C.M);
    }
  }

  /**
   * The translated frame carries the intended endpoints exactly when the UDP checksum is in use or the port
   * did not have to change.
   */
  lemma EndpointIsTranslatedIff(p: Endpoint, xlat: NatData, f: seq<u8>)
    requires HasHeaders(f)
    ensures TupleOf(Translated(p, xlat, f)) == Redirected(p, TupleOf(f), xlat.natAddr, xlat.natPort)
            <==> Be16(f, UDP_CHECK) != 0 || PortOf(p, TupleOf(f)) == xlat.natPort
  {
    TranslatedFields(p, xlat, f);
  }

  /**
   * Translating an endpoint and translating it back restores every byte of the frame, exactly when the IPv4
   * checksum was not the redundant zero 0xFFFF. The UDP checksum is restored in every case.
   */
  lemma InverseRestoresIff(p: Endpoint, xlat: NatData, back: NatData, f: seq<u8>)
    requires HasHeaders(f)
    requires back.natAddr == Be32(f, p.AddrAt()) && back.natPort == Be16(f, p.PortAt())
    ensures Translated(p, back, Translated(p, xlat, f)) == f <==> Be16(f, IP_CHECK) != 0xFFFF
  {
    var g := Translated(p, xlat, f);
    TranslatedFields(p, xlat, f);
    TranslatedFields(p, back, g);
    InverseFields(p, f, g, Translated(p, back, g));
    UntouchedTwice(p, xlat, back, f);
    RestoredIff(p, f, Translated(p, back, g));
  }

  lemma UntouchedTwice(p: Endpoint, xlat: NatData, back: NatData, f: seq<u8>)
    requires HasHeaders(f)
    ensures forall j :: 0 <= j < |f| && !Rewrites(p, j) ==> Translated(p, back, Translated(p, xlat, f))[j] == f[j]
  {
    forall j | 0 <= j < |f| && !Rewrites(p, j)
      ensures Translated(p, back, Translated(p, xlat, f))[j] == f[j]
    {
      OnlyFourFieldsChange(p, xlat, f, j);
      OnlyFourFieldsChange(p, back, Translated(p, xlat, f), j);
    }
  }

  lemma RestoredIff(p: Endpoint, f: seq<u8>, h: seq<u8>)
    requires HasHeaders(f) && |h| == |f|
    requires Be16(h, IP_CHECK) == Be16(f, IP_CHECK) % C.M && Be16(h, UDP_CHECK) == Be16(f, UDP_CHECK)
    requires Be32(h, p.AddrAt()) == Be32(f, p.AddrAt()) && Be16(h, p.PortAt()) == Be16(f, p.PortAt())
    requires forall j :: 0 <= j < |f| && !Rewrites(p, j) ==> h[j] == f[j]
    ensures h == f <==> Be16(f, IP_CHECK) != 0xFFFF
  {
    var ck: int := Be16(f, IP_CHECK);
    if ck == 0xFFFF {
      assert Be16(h, IP_CHECK) == 0;
    } else {
      assert ck % C.M == ck;
      SameFieldsSameFrame(p, f, h);
    }
  }

  lemma SameFieldsSameFrame(p: Endpoint, f: seq<u8>, h: seq<u8>)
    requires HasHeaders(f) && |h| == |f|
    requires Be16(h, IP_CHECK) == Be16(f, IP_CHECK) && Be16(h, UDP_CHECK) == Be16(f, UDP_CHECK)
    requires Be32(h, p.AddrAt()) == Be32(f, p.AddrAt()) && Be16(h, p.PortAt()) == Be16(f, p.PortAt())
    requires forall j :: 0 <= j < |f| && !Rewrites(p, j) ==> h[j] == f[j]
    ensures h == f
  {
    forall j | 0 <= j < |f| && Rewrites(p, j)
      ensures h[j] == f[j]
    {
      SameFieldBytes(p, f, h, j);
    }
  }

  /** Byte `j` belongs to one of the four fields that the translation of `p` rewrites. */
  predicate Rewrites(p: Endpoint, j: nat) {
    || IP_CHECK <= j < IP_CHECK + 2 || UDP_CHECK <= j < UDP_CHECK + 2
    || p.AddrAt() <= j < p.AddrAt() + 4 || p.PortAt() <= j < p.PortAt() + 2
  }

  lemma SameFieldBytes(p: Endpoint, f: seq<u8>, h: seq<u8>, j: nat)
    requires |f| == |h| && HasHeaders(f) && Rewrites(p, j)
    requires Be16(f, IP_CHECK) == Be16(h, IP_CHECK) && Be16(f, UDP_CHECK) == Be16(h, UDP_CHECK)
    requires Be32(f, p.AddrAt()) == Be32(h, p.AddrAt()) && Be16(f, p.PortAt()) == Be16(h, p.PortAt())
    ensures f[j] == h[j]
  {
    SameWord(f, h, IP_CHECK);
    SameWord(f, h, UDP_CHECK);
    SameWord(f, h, p.PortAt());
    SameLongWord(f, h, p.AddrAt());
    SameWord(f, h, p.AddrAt());
    SameWord(f, h, p.AddrAt() + 2);
  }

  lemma SameWord(f: seq<u8>, h: seq<u8>, i: nat)
    requires i + 2 <= |f| == |h| && Be16(f, i) == Be16(h, i)
    ensures f[i] == h[i] && f[i + 1] == h[i + 1]
  {
    SameDigits(f[i], f[i + 1], h[i], h[i + 1], 0x100);
  }

  lemma SameLongWord(f: seq<u8>, h: seq<u8>, i: nat)
    requires i + 4 <= |f| == |h| && Be32(f, i) == Be32(h, i)
    ensures Be16(f, i) == Be16(h, i) && Be16(f, i + 2) == Be16(h, i + 2)
  {
    SameDigits(Be16(f, i), Be16(f, i + 2), Be16(h, i), Be16(h, i + 2), 0x1_0000);
  }

  lemma SameDigits(a: int, b: int, c: int, d: int, base: int)
    requires base == 0x100 || base == 0x1_0000
    requires 0 <= b < base && 0 <= d < base && a * base + b == c * base + d
    ensures a == c && b == d
  {
  }

  /** The fields of a frame translated to `g` and back to `h`. */
  lemma InverseFields(p: Endpoint, f: seq<u8>, g: seq<u8>, h: seq<u8>)
    requires HasHeaders(f) && |f| == |g| == |h|
    requires var ck, udp, a, t := IP_CHECK, UDP_CHECK, p.AddrAt(), p.PortAt();
      && Be16(g, ck) == C.Replaced(Be16(f, ck), Be32(f, a), Be32(g, a))
      && Be16(h, ck) == C.Replaced(Be16(g, ck), Be32(g, a), Be32(f, a))
      && Be16(g, udp) == (if Be16(f, udp) == 0 then 0 else
           ReplacedUdp(Be16(f, udp), Be16(f, t), Be16(g, t), Be32(f, a), Be32(g, a)))
      && Be16(h, udp) == (if Be16(g, udp) == 0 then 0 else
           ReplacedUdp(Be16(g, udp), Be16(g, t), Be16(f, t), Be32(g, a), Be32(f, a)))
    ensures Be16(h, IP_CHECK) == Be16(f, IP_CHECK) % C.M
    ensures Be16(h, UDP_CHECK) == Be16(f, UDP_CHECK)
  {
    var a, t := p.AddrAt(), p.PortAt();
    ThereAndBack(Be16(f, IP_CHECK), Be32(f, a) - Be32(g, a));
    if Be16(f, UDP_CHECK) != 0 {
      ReplacedUdpRestores(Be16(f, UDP_CHECK), Be16(f, t), Be16(g, t), Be32(f, a), Be32(g, a));
      ReplacedUdpResidue(Be16(f, UDP_CHECK), Be16(f, t), Be16(g, t), Be32(f, a), Be32(g, a));
    }
  }

  lemma ThereAndBack(c: u16, d: int)
    ensures ((c + d) % C.M - d) % C.M == c % C.M
  {
    var y := (c + d) % C.M - d;
    assert y == c % C.M + C.M * (c / C.M - (c + d) / C.M);
    C.ResidueIsUnique(c % C.M, y, c / C.M - (c + d) / C.M);
  }

  lemma ReplacedUdpRestores(c: u16, port: u16, port': u16, addr: u32, addr': u32)
    requires c != 0
    ensures ReplacedUdp(ReplacedUdp(c, port, port', addr, addr'), port', port, addr', addr) == c
  {
    var d := port + addr - (port' + addr');
    var c' := ReplacedUdp(c, port, port', addr, addr');
    ReplacedUdpIsNonzeroResidue(c, port, port', addr, addr');
    ReplacedUdpIsNonzeroResidue(c', port', port, addr', addr);
    NonzeroRestores(c, d);
  }

  function NonzeroResidue(y: int): int {
    if y % C.M == 0 then 0xFFFF else y % C.M
  }

  lemma ReplacedUdpIsNonzeroResidue(c: u16, port: u16, port': u16, addr: u32, addr': u32)
    ensures ReplacedUdp(c, port, port', addr, addr') == NonzeroResidue(c + (port + addr - (port' + addr')))
  {
    var y := c + port - port';
    var z := y % C.M + addr - addr';
    C.ResidueIsUnique(z % C.M, c + (port + addr - (port' + addr')), y / C.M + z / C.M);
  }

  lemma NonzeroRestores(c: int, d: int)
    requires 0 < c <= 0xFFFF
    ensures NonzeroResidue(NonzeroResidue(c + d) - d) == c
  {
    var c' := NonzeroResidue(c + d);
    var k := (if c' == 0xFFFF then 1 else 0) - (c + d) / C.M;
    if c == 0xFFFF {
      C.ResidueIsUnique(0, c' - d, k + 1);
    } else {
      C.ResidueIsUnique(c, c' - d, k);
    }
  }
}
