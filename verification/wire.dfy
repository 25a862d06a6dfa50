/** Frames byte by byte: which of them are handled, what is read from them, and what leaves. */
module Wire {
  import opened Words
  import opened Common
  import opened Packet
  import opened Rewrite
  import opened Conntrack
  import opened Datapath
  import opened Transparency
  import opened RoundTrip
  import opened Openings

  /** The number that two bytes spell in network order. */
  function Port(b: seq<u8>): u16
    requires |b| == 2
  {
    var hi: int, lo: int := b[0], b[1];
    hi * 256 + lo
  }

  /** The number that four bytes spell in network order. */
  function Addr(b: seq<u8>): u32
    requires |b| == 4
  {
    var b0: int, b1: int, b2: int, b3: int := b[0], b[1], b[2], b[3];
    ((b0 * 256 + b1) * 256 + b2) * 256 + b3
  }

  /** The endpoints that a frame names. */
  function Endpoints(f: seq<u8>): ConnectionTuple
    requires 42 <= |f|
  {
    ConnectionTuple(Addr(f[26..30]), Addr(f[30..34]), Port(f[34..36]), Port(f[36..38]))
  }

  /**
   * UDP over IPv4 with all headers inside the frame, without IPv4 options, and no fragment: neither the
   * more-fragments flag nor an offset is set.
   */
  predicate PlainUdp(f: seq<u8>) {
    && 42 <= |f|
    && f[12] == 0x08 && f[13] == 0x00
    && f[14] % 16 == 5
    && f[20] % 64 == 0 && f[21] == 0
    && f[23] == 17
  }

  lemma FilterIsPlainUdp(f: seq<u8>)
    ensures Eligible(f) <==> PlainUdp(f)
  {
    FilterByBytes(f);
  }

  lemma EndpointsAreRead(f: seq<u8>)
    requires 42 <= |f|
    ensures TupleOf(f) == Endpoints(f)
  {
  }

  /**
   * What one frame gets, from its bytes. Whatever is not plain UDP passes on to the kernel, and so does a frame
   * that has no entry and cannot open one. Every other frame is translated, as its entry says or else as the NIC,
   * the exposed ports and the route say, and is redirected if its device is known.
   */
  lemma FrameOutcome(flag: Flags, t: Table, pnic: Option<NicInfo>, expose: map<u16, ContainerInfo>,
                     redirect: map<u32, u32>, f: seq<u8>, fib: Option<FibMacs>)
    ensures var x := TranslationFor(flag, t, pnic, expose, f, fib);
            && (x.Some? <==>
                  && PlainUdp(f)
                  && (|| Endpoints(f) in t
                      || (fib.Some? && if flag == Snat then pnic.Some? else Port(f[36..38]) in expose)))
            && (x.None? ==> ActionOn(redirect, x) == Pass)
            && (x.Some? ==>
                  var k, key := Endpoints(f), x.value.devmapKey;
                  && ActionOn(redirect, x) == (if key in redirect then XdpAction.Redirect(redirect[key]) else Pass)
                  && x.value ==
                     if k in t then t[k].xlat
                     else if flag == Snat then NatData(pnic.value.nicIp, k.srcPort, fib.value, 0)
                     else
                       var to := expose[k.dstPort];
                       NatData(to.containerIp, to.containerPort, FibMacs(f[0..6], to.containerMac), to.containerIp))
  {
    FilterIsPlainUdp(f);
    if PlainUdp(f) {
      EndpointsAreRead(f);
    }
  }

  /** And what it leaves in the table: nothing, a renewed entry, or a new flow. */
  lemma FrameLeaves(flag: Flags, t: Table, pnic: Option<NicInfo>, expose: map<u16, ContainerInfo>, f: seq<u8>,
                    fib: Option<FibMacs>, now: Instant)
    ensures var x := TranslationFor(flag, t, pnic, expose, f, fib);
            var t' := TableAfterFrame(flag, t, pnic, expose, f, fib, now);
            if x.None? then t' == t
            else
              && PlainUdp(f)
              && var k := Endpoints(f);
                 if k in t then Renews(flag, t, t', k, now)
                 else
                   && fib.Some?
                   && var own := FlowState(x.value, Original, false, now + 30_000_000_000);
                      if flag == Snat then
                        Adds(t, t', k, own, ConnectionTuple(k.dstAddr, x.value.natAddr, k.dstPort, k.srcPort),
                             FlowState(NatData(k.srcAddr, k.srcPort, FibMacs(fib.value.smac, f[6..12]), k.srcAddr),
                                       Reply, false, now + 30_000_000_000))
                      else
                        Adds(t, t', k, own, ConnectionTuple(x.value.natAddr, k.srcAddr, x.value.natPort, k.srcPort),
                             FlowState(NatData(k.dstAddr, k.dstPort, fib.value, 0),
                                       Reply, false, now + 30_000_000_000))
  {
    FilterIsPlainUdp(f);
    if PlainUdp(f) {
      EndpointsAreRead(f);
      var k := Endpoints(f);
      assert LocalMac(flag, f) == if flag == Snat then f[6..12] else f[0..6];
      if k in t {
        PacketHits(flag, t, k, OpenedBy(flag, pnic, expose, f, fib), now);
      } else if flag == Snat {
        ContainersPacketOpens(t, pnic, expose, k, f[6..12], fib, now);
      } else {
        ServicePacketOpens(t, pnic, expose, k, f[0..6], fib, now);
      }
    }
  }

  lemma WordsAreRead(f: seq<u8>, i: nat)
    ensures i + 2 <= |f| ==> Port(f[i..i + 2]) == Be16(f, i)
    ensures i + 4 <= |f| ==> Addr(f[i..i + 4]) == Be32(f, i)
  {
  }

  /** The bytes of a translated packet that are those of the original. */
  lemma KeptSlice(p: Endpoint, x: NatData, f: seq<u8>, lo: nat, hi: nat)
    requires 42 <= |f| && lo <= hi <= |f| && forall j: nat :: lo <= j < hi ==> !Rewrites(p, j)
    ensures Translated(p, x, f)[lo..hi] == f[lo..hi]
  {
    forall j: nat | lo <= j < hi
      ensures Translated(p, x, f)[j] == f[j]
    {
      OnlyFourFieldsChange(p, x, f, j);
    }
  }

  /** The bytes of a translated packet: one address, its port, and the two checksums; nothing else. */
  lemma TranslatedBytes(p: Endpoint, x: NatData, f: seq<u8>)
    requires 42 <= |f|
    ensures var t := Translated(p, x, f);
            && t[12..24] == f[12..24] && t[38..40] == f[38..40] && t[42..] == f[42..]
            && (p == Source ==> Addr(t[26..30]) == x.natAddr && t[30..34] == f[30..34] && t[36..38] == f[36..38])
            && (p == Destination ==> Addr(t[30..34]) == x.natAddr && t[26..30] == f[26..30] && t[34..36] == f[34..36])
  {
    var t := Translated(p, x, f);
    TranslatedFields(p, x, f);
    KeptSlice(p, x, f, 12, 24);
    KeptSlice(p, x, f, 38, 40);
    KeptSlice(p, x, f, 42, |f|);
    assert t[42..|f|] == t[42..] && f[42..|f|] == f[42..];
    if p == Source {
      KeptSlice(p, x, f, 30, 34);
      KeptSlice(p, x, f, 36, 38);
      WordsAreRead(t, 26);
    } else {
      KeptSlice(p, x, f, 26, 30);
      KeptSlice(p, x, f, 34, 36);
      WordsAreRead(t, 30);
    }
  }

  /** The port is rewritten exactly if the UDP checksum is in use, which it then stays. */
  lemma TranslatedUdp(p: Endpoint, x: NatData, f: seq<u8>)
    requires 42 <= |f|
    ensures var t := Translated(p, x, f);
            if f[40] == 0 && f[41] == 0 then
              t[34..38] == f[34..38] && t[40..42] == f[40..42]
            else
              Port(if p == Source then t[34..36] else t[36..38]) == x.natPort && (t[40] != 0 || t[41] != 0)
  {
    var t := Translated(p, x, f);
    TranslatedFields(p, x, f);
    WordsAreRead(t, 34);
    WordsAreRead(t, 36);
    assert Be16(f, 40) == 0 <==> f[40] == 0 && f[41] == 0;
    assert Be16(t, 40) == 0 <==> t[40] == 0 && t[41] == 0;
    if Be16(f, 40) == 0 {
      assert PortTranslated(p, x, f) == f;
    }
  }

  /** The bytes of a forwarded frame: beyond those of the translated packet, the addresses of the next hop. */
  lemma ForwardedBytes(flag: Flags, x: NatData, f: seq<u8>)
    requires 42 <= |f|
    ensures var g := Forwarded(flag, x, f);
            && |g| == |f|
            && g[0..6] == x.macs.dmac && g[6..12] == x.macs.smac
            && g[12..24] == f[12..24] && g[38..40] == f[38..40] && g[42..] == f[42..]
            && (flag == Snat ==> Addr(g[26..30]) == x.natAddr && g[30..34] == f[30..34] && g[36..38] == f[36..38])
            && (flag == Dnat ==> Addr(g[30..34]) == x.natAddr && g[26..30] == f[26..30] && g[34..36] == f[34..36])
            && (if f[40] == 0 && f[41] == 0 then
                  g[34..38] == f[34..38] && g[40..42] == f[40..42]
                else
                  Port(if flag == Snat then g[34..36] else g[36..38]) == x.natPort && (g[40] != 0 || g[41] != 0))
  {
    var g, t := Forwarded(flag, x, f), Translated(flag.Rewritten(), x, f);
    TranslatedBytes(flag.Rewritten(), x, f);
    TranslatedUdp(flag.Rewritten(), x, f);
    assert g == x.macs.dmac + x.macs.smac + t[12..];
    forall lo: nat, hi: nat | 12 <= lo <= hi <= |f|
      ensures g[lo..hi] == t[lo..hi]
    {
    }
    assert g[42..] == t[42..] && g[40] == t[40] && g[41] == t[41];
  }

  /** The sum over the pseudo-header and a datagram of `n` bytes. */
  function DatagramSum(f: seq<u8>, n: nat): nat
    requires 34 + n <= |f|
  {
    WordSum(f, 26, 34) + 17 + n + WordSum(f, 34, 34 + n)
  }

  /**
   * And the two sums that a receiver checks keep their residue: over the IPv4 header, and over the pseudo-header
   * and the datagram if its checksum is in use.
   */
  lemma ForwardedSums(flag: Flags, x: NatData, f: seq<u8>)
    requires PlainUdp(f)
    ensures var g, n := Forwarded(flag, x, f), Port(f[38..40]);
            && |g| == |f|
            && WordSum(g, 14, 34) % 0xFFFF == WordSum(f, 14, 34) % 0xFFFF
            && ((f[40] != 0 || f[41] != 0) && 8 <= n && 34 + n <= |f| ==>
                  DatagramSum(g, n) % 0xFFFF == DatagramSum(f, n) % 0xFFFF)
  {
    var n := Port(f[38..40]);
    IpSumIsForwarded(flag, x, f);
    if (f[40] != 0 || f[41] != 0) && 8 <= n && 34 + n <= |f| {
      UdpSumIsForwarded(flag, x, f, n);
    }
  }

  lemma IpSumIsForwarded(flag: Flags, x: NatData, f: seq<u8>)
    requires PlainUdp(f)
    ensures var g := Forwarded(flag, x, f);
            |g| == |f| && WordSum(g, 14, 34) % 0xFFFF == WordSum(f, 14, 34) % 0xFFFF
  {
    var t := Translated(flag.Rewritten(), x, f);
    ReaddressedKeepsBytes(x.macs, t);
    IpChecksumIsExact(flag.Rewritten(), x, f);
    SamePacketSameIpSums(t, Forwarded(flag, x, f));
  }

  lemma UdpSumIsForwarded(flag: Flags, x: NatData, f: seq<u8>, n: nat)
    requires 42 <= |f| && n == Port(f[38..40]) && 8 <= n && 34 + n <= |f| && (f[40] != 0 || f[41] != 0)
    ensures var g := Forwarded(flag, x, f);
            |g| == |f| && DatagramSum(g, n) % 0xFFFF == DatagramSum(f, n) % 0xFFFF
  {
    var t, g := Translated(flag.Rewritten(), x, f), Forwarded(flag, x, f);
    WordsAreRead(f, 38);
    assert Be16(f, UDP_CHECK) != 0;
    ReaddressedKeepsBytes(x.macs, t);
    UdpChecksumIsExact(flag.Rewritten(), x, f);
    SamePacketSameUdpSum(t, g);
    ForwardedBytes(flag, x, f);
    WordsAreRead(g, 38);
    CoveredIsDatagramSum(f, n);
    CoveredIsDatagramSum(g, n);
  }

  lemma CoveredIsDatagramSum(f: seq<u8>, n: nat)
    requires HasDatagram(f) && n == Be16(f, UDP_LEN)
    ensures DatagramSum(f, n) == UdpCovered(f)
  {
  }
}
