/** Translating a packet, answering it and translating the answer, on keys and on the bytes of frames. */
module RoundTrip {
  import opened Words
  import opened Common
  import opened Packet
  import opened Rewrite
  import opened Conntrack
  import opened Control
  import opened Datapath
  import opened System
  import opened Unconditional
  import opened Pairing
  import opened Timing
  import opened Transparency

  function Across(flag: Flags): Flags {
    if flag.Snat? then Dnat else Snat
  }

  /** In a paired table the answer to a translated packet has an entry, which leads back to its sender. */
  lemma AnswerLeadsBack(s: State, k: ConnectionTuple)
    requires Paired(s) && k in s.table
    ensures var flag := ProgramFor(s, k);
            var answer := TranslatedTuple(flag, k, s.table[k].xlat).Swapped();
            && answer in s.table
            && ProgramFor(s, answer) == Across(flag)
            && TranslatedTuple(Across(flag), answer, s.table[answer].xlat) == k.Swapped()
  {
    assert PairedAt(s, k);
    var answer := Twin(s, k);
    assert TranslatedTuple(ProgramFor(s, answer), answer, s.table[answer].xlat).Swapped() == k;
  }

  /**
   * Over a run: as long as the flow that `e` opened stays alive, through any interleaving with other flows,
   * its packets leave under the tuple of the first one, and the answers come back to its sender.
   */
  lemma OpenedFlowRoundTrips(s: State, e: Event, at: Instant, tr: Trace)
    requires Sound(s) && Allowed(Clean, s, e, at)
    requires e.Packet? && e.key !in s.table && Opens(s, e).Some?
    requires Legal(Clean, Step(s, e, at), tr) && AliveThroughout(Step(s, e, at), tr, e.key)
    ensures var end, x := Run(Step(s, e, at), tr), Opens(s, e).value.forward;
            var answer := TranslatedTuple(e.flag, e.key, x).Swapped();
            && e.key in end.table && end.table[e.key].xlat == x
            && answer in end.table
            && TranslatedTuple(Across(e.flag), answer, end.table[answer].xlat) == e.key.Swapped()
  {
    var s1 := Step(s, e, at);
    CreatedFrame(e.flag, s.table, e.key, Opens(s, e).value, at);
    TranslationIsSticky(s1, tr, e.key);
    StepStaysSound(s, e, at);
    RunsStaySound(s1, tr);
    RunKeepsTheSite(s1, tr);
    AnswerLeadsBack(Run(s1, tr), e.key);
  }

  /**
   * On the wire, over the same runs: what leaves through the NIC goes to the next hop of the route that was
   * looked up, and what goes to the container is addressed to its MAC and sent to its device. A container's MAC
   * is the one that its first packet came from, or the one it was exposed with. A container at address 0 would
   * share the NIC's key.
   */
  lemma OpenedFlowIsDelivered(s: State, e: Event, at: Instant, tr: Trace, nicIfindex: u32)
    requires Sound(s) && Allowed(Clean, s, e, at)
    requires e.Packet? && e.key !in s.table && Opens(s, e).Some?
    requires Legal(Clean, Step(s, e, at), tr) && AliveThroughout(Step(s, e, at), tr, e.key)
    ensures var end, x := Run(Step(s, e, at), tr), Opens(s, e).value.forward;
            var answer := ReverseKey(e.flag, e.key, x);
            && e.key in end.table && answer in end.table && e.fib.Some?
            && var outward := if e.flag.Snat? then e.key else answer;
               var inward := if e.flag.Snat? then answer else e.key;
               var out, into := end.table[outward].xlat, end.table[inward].xlat;
               && out.macs == e.fib.value && out.devmapKey == 0
               && into.devmapKey == into.natAddr == outward.srcAddr
               && into.macs.smac == (if e.flag.Snat? then e.fib.value.smac else e.mac)
               && into.macs.dmac == (if e.flag.Snat? then e.mac else s.control.expose[e.key.dstPort].containerMac)
               && outward.srcAddr in s.control.containers
               && var devices := DeviceMap(s.control.containers, nicIfindex);
                  && ActionOn(devices, Some(out)) == XdpAction.Redirect(nicIfindex)
                  && ActionOn(devices, Some(into)) == XdpAction.Redirect(
                       if outward.srcAddr == 0 then nicIfindex else s.control.containers[outward.srcAddr].ifindex)
  {
    var s1 := Step(s, e, at);
    var o := Opens(s, e).value;
    var answer := ReverseKey(e.flag, e.key, o.forward);
    CreatedFrame(e.flag, s.table, e.key, o, at);
    StartsAlive(s1, tr, e.key);
    BothHalvesAreNew(s, e, at);
    StepStaysSound(s, e, at);
    TwinStaysAlive(s1, tr, e.key);
    TranslationIsSticky(s1, tr, e.key);
    TranslationIsSticky(s1, tr, answer);
  }

  lemma {:induction false} StartsAlive(s: State, tr: Trace, k: ConnectionTuple)
    requires AliveThroughout(s, tr, k)
    ensures k in s.table
  {
    if tr.Then? {
      StartsAlive(s, tr.before, k);
    }
  }

  /** A flow that enters the table at all enters with both halves. */
  lemma BothHalvesAreNew(s: State, e: Event, at: Instant)
    requires Sound(s) && Allowed(Clean, s, e, at)
    requires e.Packet? && e.key !in s.table && Opens(s, e).Some? && e.key in Step(s, e, at).table
    ensures var s1, o := Step(s, e, at), Opens(s, e).value;
            var answer := ReverseKey(e.flag, e.key, o.forward);
            && answer in s1.table && Twin(s1, e.key) == answer
            && s1.table[e.key].xlat == o.forward && s1.table[answer].xlat == o.backward
  {
    CreatedFrame(e.flag, s.table, e.key, Opens(s, e).value, at);
    PairedTableIsEven(s);
    OpeningMakesAPair(s, e, at);
  }

  /** The two entries of a flow live and die together. */
  lemma {:induction false} TwinStaysAlive(s: State, tr: Trace, k: ConnectionTuple)
    requires Sound(s) && Legal(Clean, s, tr) && AliveThroughout(s, tr, k)
    ensures k in s.table && AliveThroughout(s, tr, Twin(s, k))
  {
    TranslationIsSticky(s, tr, k);
    RunsStaySound(s, tr);
    RunKeepsTheSite(s, tr);
    assert PairedAt(Run(s, tr), k);
    if tr.Then? {
      TwinStaysAlive(s, tr.before, k);
    }
  }

  /**
   * The answers to the first packet of a flow come back to its sender if and only if the reverse key was free and
   * the table had room for both entries, or the entry at the reverse key led back to the sender already, having
   * outlived its own reverse. Otherwise they get no entry, or go on to the flow that owns the key. This holds on
   * any table, however its pairs were broken.
   */
  lemma OpenedFlowIsAnsweredIff(s: State, e: Event, at: Instant)
    requires KnownExposures(s.control) && Sited(s, e) && e.Packet? && e.key !in s.table && Opens(s, e).Some?
    ensures var answer := ReverseKey(e.flag, e.key, Opens(s, e).value.forward);
            var s' := Step(s, e, at);
            answer in s'.table && TranslatedTuple(Across(e.flag), answer, s'.table[answer].xlat) == e.key.Swapped()
            <==> if answer in s.table then Twin(s, answer) == e.key else |s.table| + 2 <= CONNTRACK_MAX
  {
    var o := Opens(s, e).value;
    var answer := ReverseKey(e.flag, e.key, o.forward);
    CreatedFrame(e.flag, s.table, e.key, o, at);
    assert ProgramFor(s, answer) == Across(e.flag) && answer != e.key;
    if answer !in s.table && |s.table| < CONNTRACK_MAX {
      var t1 := InsertNoExist(s.table, e.key, NewFlow(o.forward, Original, at + TIMEOUT_NEW));
      assert t1.Keys == s.table.Keys + {e.key} && |t1| == |t1.Keys| == |s.table| + 1;
      assert TranslatedTuple(Across(e.flag), answer, o.backward) == e.key.Swapped();
    }
  }

  /** In a table of whole flows, an occupied reverse key never leads back, and one free place means two. */
  lemma WholeFlowIsAnsweredIff(s: State, e: Event, at: Instant)
    requires Sound(s) && Sited(s, e) && e.Packet? && e.key !in s.table && Opens(s, e).Some?
    ensures var answer := ReverseKey(e.flag, e.key, Opens(s, e).value.forward);
            var s' := Step(s, e, at);
            answer in s'.table && TranslatedTuple(Across(e.flag), answer, s'.table[answer].xlat) == e.key.Swapped()
            <==> answer !in s.table && |s.table| < CONNTRACK_MAX
  {
    var answer := ReverseKey(e.flag, e.key, Opens(s, e).value.forward);
    OpenedFlowIsAnsweredIff(s, e, at);
    PairedTableIsEven(s);
    if answer in s.table {
      assert PairedAt(s, answer);
    }
  }

  /** The endpoints that a forwarded frame carries. */
  lemma ForwardedTuple(flag: Flags, xlat: NatData, f: seq<u8>)
    requires HasHeaders(f)
    ensures var g := Forwarded(flag, xlat, f);
            && HasHeaders(g)
            && (TupleOf(g) == TranslatedTuple(flag, TupleOf(f), xlat)
                <==> Be16(f, UDP_CHECK) != 0 || PortOf(flag.Rewritten(), TupleOf(f)) == xlat.natPort)
  {
    var t := Translated(flag.Rewritten(), xlat, f);
    EndpointIsTranslatedIff(flag.Rewritten(), xlat, f);
    ReaddressedKeepsBytes(xlat.macs, t);
  }

  lemma ReaddressedKeepsBytes(macs: FibMacs, f: seq<u8>)
    requires HasHeaders(f)
    ensures var g := Readdressed(macs, f);
            |g| == |f| && forall j :: ETH_TYPE <= j < |f| ==> g[j] == f[j]
  {
  }

  /** The port in a frame is right after translation if its checksum is in use or its port need not change. */
  predicate PortCanBeRewritten(f: seq<u8>, flag: Flags, xlat: NatData)
    requires HasHeaders(f)
  {
    Be16(f, UDP_CHECK) != 0 || PortOf(flag.Rewritten(), TupleOf(f)) == xlat.natPort
  }

  /** Two frames of a live flow in one state: `f` is forwarded, and `h` answers what left. */
  lemma AnsweredInPlace(s: State, f: seq<u8>, h: seq<u8>, x: NatData)
    requires Paired(s) && HasHeaders(f) && HasHeaders(h) && TupleOf(f) in s.table && s.table[TupleOf(f)].xlat == x
    requires var flag := ProgramFor(s, TupleOf(f));
             && PortCanBeRewritten(f, flag, x) && HasHeaders(Forwarded(flag, x, f))
             && TupleOf(h) == TupleOf(Forwarded(flag, x, f)).Swapped()
    ensures var back := Across(ProgramFor(s, TupleOf(f)));
            && TupleOf(h) in s.table
            && HasHeaders(Forwarded(back, s.table[TupleOf(h)].xlat, h))
            && (TupleOf(Forwarded(back, s.table[TupleOf(h)].xlat, h)) == TupleOf(f).Swapped()
                <==> PortCanBeRewritten(h, back, s.table[TupleOf(h)].xlat))
  {
    var k := TupleOf(f);
    var flag := ProgramFor(s, k);
    ForwardedTuple(flag, x, f);
    AnswerLeadsBack(s, k);
    assert TupleOf(h) == TranslatedTuple(flag, k, x).Swapped();
    ForwardedTuple(Across(flag), s.table[TupleOf(h)].xlat, h);
  }

  /** A packet whose flow is in the table afterwards received the translation that its entry holds. */
  lemma EntryHoldsTheTranslation(s: State, flag: Flags, f: seq<u8>, fib: Option<FibMacs>, at: Instant)
    requires Eligible(f) && TupleOf(f) in Step(s, FrameEvent(flag, f, fib), at).table
    ensures Translation(s, flag, f, fib) == Some(Step(s, FrameEvent(flag, f, fib), at).table[TupleOf(f)].xlat)
  {
    var e := FrameEvent(flag, f, fib);
    if e.key in s.table {
      StepIsSticky(s, e, at, e.key);
    } else if Opens(s, e).Some? {
      CreatedFrame(flag, s.table, e.key, Opens(s, e).value, at);
    }
  }

  /**
   * On frames, over runs: the frame `f` opens or hits a flow and is forwarded with the translation `x`; after any
   * clean run in which the flow stays alive, a frame `h` that answers what was forwarded receives a translation
   * too, and is forwarded to the swapped endpoints of `f` if and only if its port can be rewritten.
   */
  lemma FramesRoundTrip(s: State, flag: Flags, f: seq<u8>, fib: Option<FibMacs>, at: Instant, x: NatData,
                        tr: Trace, h: seq<u8>, fib': Option<FibMacs>)
    requires Sound(s) && Eligible(f) && Eligible(h) && Allowed(Clean, s, FrameEvent(flag, f, fib), at)
    requires Translation(s, flag, f, fib) == Some(x) && PortCanBeRewritten(f, flag, x)
    requires var s1 := Step(s, FrameEvent(flag, f, fib), at);
             Legal(Clean, s1, tr) && AliveThroughout(s1, tr, TupleOf(f))
    requires HasHeaders(Forwarded(flag, x, f)) && TupleOf(h) == TupleOf(Forwarded(flag, x, f)).Swapped()
    ensures var end := Run(Step(s, FrameEvent(flag, f, fib), at), tr);
            var y := Translation(end, Across(flag), h, fib');
            && y.Some?
            && HasHeaders(Forwarded(Across(flag), y.value, h))
            && (TupleOf(Forwarded(Across(flag), y.value, h)) == TupleOf(f).Swapped()
                <==> PortCanBeRewritten(h, Across(flag), y.value))
  {
    var e := FrameEvent(flag, f, fib);
    var s1 := Step(s, e, at);
    StartsAlive(s1, tr, e.key);
    EntryHoldsTheTranslation(s, flag, f, fib, at);
    StepStaysSound(s, e, at);
    TranslationIsSticky(s1, tr, e.key);
    RunsStaySound(s1, tr);
    RunKeepsTheSite(s1, tr);
    AnsweredInPlace(Run(s1, tr), f, h, x);
  }

  /** Flows that containers open keep their port, so their frames need no UDP checksum. */
  lemma ContainerFlowsKeepThePort(s: State, e: Event, at: Instant, tr: Trace, f: seq<u8>, h: seq<u8>)
    requires Sound(s) && Allowed(Clean, s, e, at)
    requires e.Packet? && e.flag.Snat? && e.key !in s.table && Opens(s, e).Some?
    requires Legal(Clean, Step(s, e, at), tr) && AliveThroughout(Step(s, e, at), tr, e.key)
    requires HasHeaders(f) && TupleOf(f) == e.key
    requires HasHeaders(h) && TupleOf(h) == ReverseKey(Snat, e.key, Opens(s, e).value.forward)
    ensures var end := Run(Step(s, e, at), tr);
            && e.key in end.table && TupleOf(h) in end.table
            && PortCanBeRewritten(f, Snat, end.table[e.key].xlat)
            && PortCanBeRewritten(h, Dnat, end.table[TupleOf(h)].xlat)
  {
    OpenedFlowRoundTrips(s, e, at, tr);
  }

  /** The frames differ at most in their Ethernet addresses. */
  ghost predicate SamePacket(f: seq<u8>, g: seq<u8>) {
    HasHeaders(f) && |g| == |f| && forall j :: ETH_TYPE <= j < |f| ==> g[j] == f[j]
  }

  lemma SamePacketSameIpSums(f: seq<u8>, g: seq<u8>)
    requires SamePacket(f, g)
    ensures IpCovered(g) == IpCovered(f) && IpChecksum(g) == IpChecksum(f) && Be16(g, IP_CHECK) == Be16(f, IP_CHECK)
  {
    WordSumFrame(f, g, IP_VIHL, UDP_SRC);
    WordSumFrame(Put16(f, IP_CHECK, 0), Put16(g, IP_CHECK, 0), IP_VIHL, UDP_SRC);
  }

  lemma SamePacketSameUdpSum(f: seq<u8>, g: seq<u8>)
    requires SamePacket(f, g) && HasDatagram(f)
    ensures HasDatagram(g) && UdpCovered(g) == UdpCovered(f)
  {
    WordSumFrame(f, g, IP_SRC, UDP_SRC);
    WordSumFrame(f, g, UDP_SRC, UDP_SRC + Be16(f, UDP_LEN));
  }

  lemma SamePacketSameUdpChecksum(f: seq<u8>, g: seq<u8>)
    requires SamePacket(f, g) && HasDatagram(f)
    ensures HasDatagram(g) && UdpChecksum(g) == UdpChecksum(f)
  {
    SamePacketSameUdpSum(Put16(f, UDP_CHECK, 0), Put16(g, UDP_CHECK, 0));
  }

  /** End to end: the frame that leaves has exact checksums if and only if the frame that came in verified. */
  lemma ForwardedChecksumsAreExact(flag: Flags, xlat: NatData, f: seq<u8>)
    requires Eligible(f)
    ensures var g := Forwarded(flag, xlat, f);
            && HasHeaders(g)
            && (Be16(g, IP_CHECK) == IpChecksum(g) <==> IpVerifies(f))
            && (HasDatagram(f) && Be16(f, UDP_CHECK) != 0 ==>
                  HasDatagram(g) && (Be16(g, UDP_CHECK) == UdpChecksum(g) <==> UdpVerifies(f)))
            && (Be16(g, UDP_CHECK) == 0 <==> Be16(f, UDP_CHECK) == 0)
  {
    var p := flag.Rewritten();
    var t := Translated(p, xlat, f);
    TranslatedFields(p, xlat, f);
    IpChecksumIsExact(p, xlat, f);
    var g := Forwarded(flag, xlat, f);
    ReaddressedKeepsBytes(xlat.macs, t);
    SamePacketSameIpSums(t, g);
    if Be16(f, UDP_CHECK) != 0 {
      ReplacedUdpResidue(Be16(f, UDP_CHECK), Be16(f, p.PortAt()), xlat.natPort, Be32(f, p.AddrAt()), xlat.natAddr);
      if HasDatagram(f) {
        UdpChecksumIsExact(p, xlat, f);
        UdpChecksumMatches(f);
        SamePacketSameUdpChecksum(t, g);
      }
    }
  }
}
