/** What runs of the daemon mean for the frames on the wire: services, next hops and the host's address. */
module Services {
  import opened Words
  import opened Common
  import opened Conntrack
  import opened Control
  import opened Datapath
  import opened System
  import opened Unconditional
  import opened Timing
  import opened RoundTrip
  import opened PortLaws
  import opened Wire
  import opened Daemon
  import Ports

  /** The port is exposed at every point of the run. */
  predicate ExposedThroughout(s: State, tr: Trace, p: u16) {
    p in Run(s, tr).control.expose && (tr.Then? ==> ExposedThroughout(s, tr.before, p))
  }

  lemma ExposedPortIsKept(c: ControlState, call: Call, p: u16)
    requires p in c.expose && p in After(c, call).expose
    ensures After(c, call).expose[p] == c.expose[p]
  {
  }

  /** While a port stays exposed, it stays with its container and port. */
  lemma {:induction false} ExposureIsSticky(s: State, tr: Trace, p: u16)
    requires ExposedThroughout(s, tr, p)
    ensures p in s.control.expose && Run(s, tr).control.expose[p] == s.control.expose[p]
  {
    if tr.Then? {
      ExposureIsSticky(s, tr.before, p);
      if tr.last.ControlCall? {
        ExposedPortIsKept(Run(s, tr.before).control, tr.last.call, p);
      }
    }
  }

  /** The translation of a frame without an entry to a port that was exposed by a confirmed call, and still is. */
  lemma ServiceIsTranslated(s: State, call: Call, p: u16, at: Instant, tr: Trace, f: seq<u8>, fib: FibMacs)
    requires WellKeyed(s.control) && call.Expose? && Answer(s.control, call) == Exposed(p)
    requires ExposedThroughout(Step(s, ControlCall(call), at), tr, p)
    requires PlainUdp(f) && Port(f[36..38]) == p
    requires Endpoints(f) !in Run(Step(s, ControlCall(call), at), tr).table
    ensures call.ip in s.control.containers
    ensures Translation(Run(Step(s, ControlCall(call), at), tr), Dnat, f, Some(fib))
         == Some(NatData(call.ip, call.port, FibMacs(f[0..6], s.control.containers[call.ip].mac), call.ip))
  {
    var s1 := Step(s, ControlCall(call), at);
    var end := Run(s1, tr);
    ExposeAnswer(s.control, call);
    ExposureIsSticky(s1, tr, p);
    FrameOutcome(Dnat, end.table, end.pnic, end.control.expose, map[], f, Some(fib));
  }

  /**
   * Once an exposure is confirmed, and as long as its host port stays exposed, a frame to that port that has no
   * entry is led to the container: to its address, MAC and device, and to the port that was asked for exactly if
   * the frame has a UDP checksum or the ports are equal.
   */
  lemma ServiceIsReached(s: State, call: Call, p: u16, at: Instant, tr: Trace, f: seq<u8>, fib: FibMacs, nicIfindex: u32)
    requires WellKeyed(s.control) && call.Expose? && Answer(s.control, call) == Exposed(p)
    requires ExposedThroughout(Step(s, ControlCall(call), at), tr, p)
    requires PlainUdp(f) && Port(f[36..38]) == p
    requires Endpoints(f) !in Run(Step(s, ControlCall(call), at), tr).table
    ensures var end := Run(Step(s, ControlCall(call), at), tr);
            var x := Translation(end, Dnat, f, Some(fib));
            && x.Some? && call.ip in s.control.containers
            && var g, m := Forwarded(Dnat, x.value, f), s.control.containers[call.ip];
               && |g| == |f| && Addr(g[30..34]) == call.ip && g[26..30] == f[26..30] && g[34..36] == f[34..36]
               && (Port(g[36..38]) == call.port <==> f[40] != 0 || f[41] != 0 || p == call.port)
               && g[0..6] == m.mac && g[6..12] == f[0..6]
               && ActionOn(DeviceMap(s.control.containers, nicIfindex), x)
               == XdpAction.Redirect(if call.ip == 0 then nicIfindex else m.ifindex)
  {
    ServiceIsTranslated(s, call, p, at, tr, f, fib);
    var x := NatData(call.ip, call.port, FibMacs(f[0..6], s.control.containers[call.ip].mac), call.ip);
    ForwardedBytes(Dnat, x, f);
    if f[40] == 0 && f[41] == 0 {
      UncheckedPortIsKept(x, f);
    }
  }

  /** Without a UDP checksum the destination port stays as it is. */
  lemma UncheckedPortIsKept(x: NatData, f: seq<u8>)
    requires 42 <= |f| && f[40] == 0 && f[41] == 0
    ensures |Forwarded(Dnat, x, f)| == |f| && Forwarded(Dnat, x, f)[36..38] == f[36..38]
  {
    var g := Forwarded(Dnat, x, f);
    ForwardedBytes(Dnat, x, f);
    assert g[36] == g[34..38][2] && g[37] == g[34..38][3];
  }

  /**
   * From start-up on, whatever happened before, what a container sends without an entry leaves from the NIC's
   * address and its own port, for the next hop of the route; from address 0 if the NIC's record was not written.
   */
  lemma ContainersLeaveFromTheNic(containers: map<u32, ContainerMetadata>, nic: NicInfo, written: bool, ports: seq<u16>,
                                  now: Instant, tr: Trace, f: seq<u8>, fib: FibMacs)
    requires var s := Initial(containers, Some(if written then nic else NicInfo(0, 0)), ports, now);
             PlainUdp(f) && Endpoints(f) !in Run(s, tr).table
    ensures var s := Initial(containers, Some(if written then nic else NicInfo(0, 0)), ports, now);
            var x := Translation(Run(s, tr), Snat, f, Some(fib));
            && x.Some?
            && var g := Forwarded(Snat, x.value, f);
               && |g| == |f| && Addr(g[26..30]) == (if written then nic.nicIp else 0)
               && g[30..34] == f[30..34] && g[34..38] == f[34..38]
               && g[0..6] == fib.dmac && g[6..12] == fib.smac
  {
    var s := Initial(containers, Some(if written then nic else NicInfo(0, 0)), ports, now);
    var end := Run(s, tr);
    RunKeepsTheSite(s, tr);
    FrameOutcome(Snat, end.table, end.pnic, end.control.expose, map[], f, Some(fib));
    var x := Translation(end, Snat, f, Some(fib)).value;
    ForwardedBytes(Snat, x, f);
    SamePortIsKept(x, f);
  }

  /** A port that is translated to itself stays, with or without a UDP checksum. */
  lemma SamePortIsKept(x: NatData, f: seq<u8>)
    requires 42 <= |f| && x.natPort == Port(f[34..36])
    ensures var g := Forwarded(Snat, x, f);
            |g| == |f| && g[34..38] == f[34..38]
  {
    var g := Forwarded(Snat, x, f);
    ForwardedBytes(Snat, x, f);
    if f[40] != 0 || f[41] != 0 {
      assert Port(g[34..36]) == Port(f[34..36]);
      assert g[34] == f[34] && g[35] == f[35];
      assert g[36] == g[36..38][0] && g[37] == g[36..38][1];
    }
  }

  /**
   * And after every orderly run in which what reaches the NIC is addressed to the host, every frame of a container
   * that is translated at all leaves from the host's address.
   */
  lemma OutgoingFramesCarryTheHost(containers: map<u32, ContainerMetadata>, nic: NicInfo, lower: u16, upper: u16,
                                   now: Instant, tr: Trace, f: seq<u8>, fib: Option<FibMacs>)
    requires forall ip :: ip in containers ==> containers[ip].ipv4 == ip
    requires var s := Initial(containers, Some(nic), Ports.Range(lower, upper), now);
             Legal(Orderly, s, tr) && AddressedTo(nic.nicIp, tr)
    requires PlainUdp(f) && Addr(f[26..30]) in containers
    ensures var x := Translation(Run(Initial(containers, Some(nic), Ports.Range(lower, upper), now), tr), Snat, f, fib);
            x.Some? ==> |Forwarded(Snat, x.value, f)| == |f| && Addr(Forwarded(Snat, x.value, f)[26..30]) == nic.nicIp
  {
    var s := Initial(containers, Some(nic), Ports.Range(lower, upper), now);
    var end := Run(s, tr);
    StartUpIsSound(containers, nic, lower, upper, now);
    HostFrontsTheContainers(s, tr, nic.nicIp);
    RunKeepsTheSite(s, tr);
    FrameOutcome(Snat, end.table, end.pnic, end.control.expose, map[], f, fib);
    var x := Translation(end, Snat, f, fib);
    if x.Some? {
      ForwardedBytes(Snat, x.value, f);
    }
  }

  /** The key that answers carry to a flow that `f` opens. */
  function AnswerTo(s: State, flag: Flags, f: seq<u8>): ConnectionTuple
    requires PlainUdp(f)
    requires if flag == Snat then s.pnic.Some? else Port(f[36..38]) in s.control.expose
  {
    var k := Endpoints(f);
    if flag == Snat then ConnectionTuple(k.dstAddr, s.pnic.value.nicIp, k.dstPort, k.srcPort)
    else
      var to := s.control.expose[k.dstPort];
      ConnectionTuple(to.containerIp, k.srcAddr, to.containerPort, k.srcPort)
  }

  /**
   * Next hops: let `f` open a flow, and let it stay alive through any clean run. A later frame of the flow that
   * goes out, and one that answers and goes out, is sent to the next hop of the route that was looked up for `f`.
   * One that comes in is sent to the container's own MAC: the one `f` came from, or the one it was exposed with.
   */
  lemma FramesAreDelivered(s: State, flag: Flags, f: seq<u8>, fib: FibMacs, at: Instant, tr: Trace, h: seq<u8>,
                           fib': Option<FibMacs>)
    requires Sound(s) && PlainUdp(f) && Eligible(f) && Endpoints(f) !in s.table
    requires if flag == Snat then s.pnic.Some? else Port(f[36..38]) in s.control.expose
    requires Allowed(Clean, s, FrameEvent(flag, f, Some(fib)), at)
    requires var s1 := Step(s, FrameEvent(flag, f, Some(fib)), at);
             Legal(Clean, s1, tr) && AliveThroughout(s1, tr, Endpoints(f))
    requires PlainUdp(h) && (Endpoints(h) == Endpoints(f) || Endpoints(h) == AnswerTo(s, flag, f))
    ensures var end := Run(Step(s, FrameEvent(flag, f, Some(fib)), at), tr);
            var program := if Endpoints(h) == Endpoints(f) then flag else Across(flag);
            var y := Translation(end, program, h, fib');
            && y.Some?
            && var g := Forwarded(program, y.value, h);
               && |g| == |h|
               && (program == Snat ==> g[0..6] == fib.dmac && g[6..12] == fib.smac)
               && (program == Dnat && flag == Snat ==> g[0..6] == f[6..12] && g[6..12] == fib.smac)
               && (program == Dnat && flag == Dnat ==>
                     g[0..6] == s.control.expose[Port(f[36..38])].containerMac && g[6..12] == f[0..6])
  {
    var e := FrameEvent(flag, f, Some(fib));
    var end := Run(Step(s, e, at), tr);
    EndpointsAreRead(f);
    EndpointsAreRead(h);
    OpenedFlowIsDelivered(s, e, at, tr, 0);
    var program := if Endpoints(h) == Endpoints(f) then flag else Across(flag);
    FrameOutcome(program, end.table, end.pnic, end.control.expose, map[], h, fib');
    ForwardedBytes(program, Translation(end, program, h, fib').value, h);
  }
}
