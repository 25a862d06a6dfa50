/** The two packet programs and the sweeper, acting on the kernel's maps and on the frame in place. */
module Datapath {
  import opened Words
  import opened Common
  import opened Packet
  import opened Rewrite
  import opened Conntrack

  const ETHERTYPE_IPV4 := 0x0800
  const PROTO_ICMP: u8 := 1
  const PROTO_TCP: u8 := 6
  const REDIRECT_MAX := 256

  /** The maps that the kernel shares between the packet programs and the daemon. */
  class KernelMaps {
    var conntrack: Table
    var expose: map<u16, ContainerInfo>
    var pnic: Option<NicInfo>
    var redirect: map<u32, u32>

    /** Three empty maps, and an array whose one slot holds a zeroed record. */
    constructor ()
      ensures conntrack == map[] && expose == map[] && pnic == Some(NicInfo(0, 0)) && redirect == map[]
    {
      conntrack, expose, pnic, redirect := map[], map[], Some(NicInfo(0, 0)), map[];
    }
  }

  datatype XdpAction = Pass | Redirect(ifindex: u32)

  /** Inserting a flow with `BPF_NOEXIST`; a failure is ignored. */
  method InsertFlow(maps: KernelMaps, k: ConnectionTuple, s: FlowState)
    modifies maps`conntrack
    ensures maps.conntrack == InsertNoExist(old(maps.conntrack), k, s)
  {
    if k !in maps.conntrack && |maps.conntrack| < CONNTRACK_MAX {
      maps.conntrack := maps.conntrack[k := s];
    }
  }

  /** The lazy update of the entry that a packet hits; both programs begin with it. */
  method RefreshEntry(maps: KernelMaps, k: ConnectionTuple, time: Instant) returns (state: FlowState, updateReverse: bool)
    requires k in maps.conntrack
    modifies maps`conntrack
    ensures var s := old(maps.conntrack)[k];
            && updateReverse == NeedsRefresh(s, time)
            && state == (if updateReverse then Refreshed(s, time) else s)
            && maps.conntrack == old(maps.conntrack)[k := state]
  {
    state := maps.conntrack[k];
    updateReverse := false;
    match state.direction {
      case Original =>
        var expected: u64 := time + if state.seenReply then TIMEOUT_EST else TIMEOUT_NEW;
        if expected > state.timeout && expected - state.timeout > THRESHOLD_NS {
          state := state.(timeout := expected);
          updateReverse := true;
        }
      case Reply =>
        var expected: u64 := time + TIMEOUT_EST;
        if !state.seenReply || (expected > state.timeout && expected - state.timeout > THRESHOLD_NS) {
          state := state.(seenReply := true, timeout := expected);
          updateReverse := true;
        }
    }
    maps.conntrack := maps.conntrack[k := state];
  }

  /** The reverse entry, if there is one, takes over both mutable fields; both programs end with it. */
  method MirrorEntry(maps: KernelMaps, rk: ConnectionTuple, state: FlowState)
    modifies maps`conntrack
    ensures var t := old(maps.conntrack);
            maps.conntrack == if rk in t then t[rk := Mirrored(t[rk], state)] else t
  {
    if rk in maps.conntrack {
      var rev := maps.conntrack[rk];
      rev := rev.(seenReply := state.seenReply);
      rev := rev.(timeout := state.timeout);
      maps.conntrack := maps.conntrack[rk := rev];
    }
  }

  method ProcessUdpSnat(maps: KernelMaps, e: Endian, frame: array<u8>, srcIp: u32, dstIp: u32,
                        fib: Option<FibMacs>, time: Instant)
    returns (r: Option<NatData>)
    requires HasHeaders(frame[..])
    modifies maps`conntrack, frame
    ensures var f, t := old(frame[..]), old(maps.conntrack);
            var k := ConnectionTuple(srcIp, dstIp, Be16(f, UDP_SRC), Be16(f, UDP_DST));
            var o := Open(Snat, maps.pnic, maps.expose, k, f[ETH_SRC..ETH_SRC + 6], fib);
            && maps.conntrack == TableAfter(Snat, t, k, o, time)
            && r == TranslationOf(t, k, o)
            && frame[..] == if r.Some? then Translated(Source, r.value, f) else f
  {
    LoadIsToBe(e, frame[..], UDP_SRC);
    LoadIsToBe(e, frame[..], UDP_DST);
    var srcPort := ToBe16(e, Load16(e, frame[..], UDP_SRC));
    var dstPort := ToBe16(e, Load16(e, frame[..], UDP_DST));
    var skey := ConnectionTuple(srcIp, dstIp, srcPort, dstPort);

    if skey in maps.conntrack {
      var state, updateReverse := RefreshEntry(maps, skey, time);
      var snat := state.xlat;
      ApplyIpSnat(e, snat, frame);

      if updateReverse {
        var dkey := ConnectionTuple(dstIp, snat.natAddr, dstPort, snat.natPort);
        MirrorEntry(maps, dkey, state);
      }
      return Some(snat);
    }

    var containerMac := frame[ETH_SRC..ETH_SRC + 6];
    if maps.pnic.None? {
      return None;
    }
    var pnicIp := maps.pnic.value.nicIp;
    var hostPort := srcPort;
    if fib.None? {
      return None;
    }
    var fibMacs := fib.value;

    var snat := NatData(pnicIp, hostPort, fibMacs, 0);
    var dnatMacs := FibMacs(fibMacs.smac, containerMac);
    var dkey := ConnectionTuple(dstIp, pnicIp, dstPort, hostPort);
    var dnat := NatData(srcIp, srcPort, dnatMacs, srcIp);

    InsertFlow(maps, skey, NewFlow(snat, Original, time + TIMEOUT_NEW));
    InsertFlow(maps, dkey, NewFlow(dnat, Reply, time + TIMEOUT_NEW));

    ApplyIpSnat(e, snat, frame);
    return Some(snat);
  }

  method ProcessUdpDnat(maps: KernelMaps, e: Endian, frame: array<u8>, srcIp: u32, dstIp: u32,
                        fib: Option<FibMacs>, time: Instant)
    returns (r: Option<NatData>)
    requires HasHeaders(frame[..])
    modifies maps`conntrack, frame
    ensures var f, t := old(frame[..]), old(maps.conntrack);
            var k := ConnectionTuple(srcIp, dstIp, Be16(f, UDP_SRC), Be16(f, UDP_DST));
            var o := Open(Dnat, maps.pnic, maps.expose, k, f[ETH_DST..ETH_DST + 6], fib);
            && maps.conntrack == TableAfter(Dnat, t, k, o, time)
            && r == TranslationOf(t, k, o)
            && frame[..] == if r.Some? then Translated(Destination, r.value, f) else f
  {
    LoadIsToBe(e, frame[..], UDP_SRC);
    LoadIsToBe(e, frame[..], UDP_DST);
    var srcPort := ToBe16(e, Load16(e, frame[..], UDP_SRC));
    var dstPort := ToBe16(e, Load16(e, frame[..], UDP_DST));
    var key := ConnectionTuple(srcIp, dstIp, srcPort, dstPort);

    if key in maps.conntrack {
      var state, updateReverse := RefreshEntry(maps, key, time);
      var dnat := state.xlat;
      ApplyIpDnat(e, dnat, frame);

      if updateReverse {
        var skey := ConnectionTuple(dnat.natAddr, srcIp, dnat.natPort, srcPort);
        MirrorEntry(maps, skey, state);
      }
      return Some(dnat);
    }

    if dstPort !in maps.expose {
      return None;
    }
    var info := maps.expose[dstPort];
    if fib.None? {
      return None;
    }
    var fibMacs := fib.value;

    var hostMac := frame[ETH_DST..ETH_DST + 6];
    var dnatMacs := FibMacs(hostMac, info.containerMac);
    var dkey := ConnectionTuple(srcIp, dstIp, srcPort, dstPort);
    var dnat := NatData(info.containerIp, info.containerPort, dnatMacs, info.containerIp);
    var snat := NatData(dstIp, dstPort, fibMacs, 0);
    var skey := ConnectionTuple(info.containerIp, srcIp, info.containerPort, srcPort);

    InsertFlow(maps, dkey, NewFlow(dnat, Original, time + TIMEOUT_NEW));
    InsertFlow(maps, skey, NewFlow(snat, Reply, time + TIMEOUT_NEW));

    ApplyIpDnat(e, dnat, frame);
    return Some(dnat);
  }

  /** The frame is an unfragmented UDP datagram over IPv4 without options, with all its headers present. */
  predicate Eligible(f: seq<u8>) {
    && HasHeaders(f)
    && Be16(f, ETH_TYPE) == ETHERTYPE_IPV4
    && f[IP_VIHL] % 16 == 5
    && Be16(f, IP_FRAGS) % 0x4000 == 0
    && f[IP_PROTO] == PROTO_UDP
  }

  /** The frames that are not eligible, from their bytes. */
  lemma FilterByBytes(f: seq<u8>)
    ensures !Eligible(f)
            <==> || |f| < 42 || f[12] != 0x08 || f[13] != 0x00 || f[14] % 16 != 5
                 || f[20] % 64 != 0 || f[21] != 0 || f[23] != 17
  {
    if 42 <= |f| {
      var hi: int, lo: int := f[20], f[21];
      assert (hi * 256 + lo) % 0x4000 == 0 <==> hi % 64 == 0 && lo == 0;
    }
  }

  /** The frame addressed on its next hop. */
  function Readdressed(macs: FibMacs, f: seq<u8>): seq<u8>
    requires HasHeaders(f)
  {
    macs.dmac + macs.smac + f[ETH_TYPE..]
  }

  /** What the program makes of an eligible frame that receives a translation. */
  function Forwarded(flag: Flags, xlat: NatData, f: seq<u8>): seq<u8>
    requires HasHeaders(f)
  {
    Readdressed(xlat.macs, Translated(flag.Rewritten(), xlat, f))
  }

  method RewriteMacs(macs: FibMacs, frame: array<u8>)
    requires HasHeaders(frame[..])
    modifies frame
    ensures frame[..] == Readdressed(macs, old(frame[..]))
  {
    forall j | 0 <= j < 6 {
      frame[ETH_SRC + j] := macs.smac[j];
    }
    forall j | 0 <= j < 6 {
      frame[ETH_DST + j] := macs.dmac[j];
    }
  }

  /** The MAC address that a program remembers from the frame that opens a flow. */
  function LocalMac(flag: Flags, f: seq<u8>): Mac
    requires HasHeaders(f)
  {
    if flag.Snat? then f[ETH_SRC..ETH_SRC + 6] else f[ETH_DST..ETH_DST + 6]
  }

  function OpenedBy(flag: Flags, pnic: Option<NicInfo>, expose: map<u16, ContainerInfo>, f: seq<u8>,
                    fib: Option<FibMacs>): Option<Opening>
    requires HasHeaders(f)
  {
    Open(flag, pnic, expose, TupleOf(f), LocalMac(flag, f), fib)
  }

  /** The translation that a frame receives; one that is not eligible receives none. */
  function TranslationFor(flag: Flags, t: Table, pnic: Option<NicInfo>, expose: map<u16, ContainerInfo>, f: seq<u8>,
                          fib: Option<FibMacs>): Option<NatData>
  {
    if Eligible(f) then TranslationOf(t, TupleOf(f), OpenedBy(flag, pnic, expose, f, fib)) else None
  }

  function TableAfterFrame(flag: Flags, t: Table, pnic: Option<NicInfo>, expose: map<u16, ContainerInfo>, f: seq<u8>,
                           fib: Option<FibMacs>, time: Instant): Table
  {
    if Eligible(f) then TableAfter(flag, t, TupleOf(f), OpenedBy(flag, pnic, expose, f, fib), time) else t
  }

  /** A translated frame is redirected to the device of its translation, if that device is known. */
  function ActionOn(redirect: map<u32, u32>, x: Option<NatData>): XdpAction {
    if x.Some? && x.value.devmapKey in redirect then Redirect(redirect[x.value.devmapKey]) else Pass
  }

  method TryXdpRedirect(maps: KernelMaps, e: Endian, flag: Flags, frame: array<u8>, fib: Option<FibMacs>, time: Instant)
    returns (action: XdpAction)
    modifies maps`conntrack, frame
    ensures var f, t := old(frame[..]), old(maps.conntrack);
            var x := TranslationFor(flag, t, maps.pnic, maps.expose, f, fib);
            && maps.conntrack == TableAfterFrame(flag, t, maps.pnic, maps.expose, f, fib, time)
            && frame[..] == (if x.Some? then Forwarded(flag, x.value, f) else f)
            && action == ActionOn(maps.redirect, x)
    ensures var f := old(frame[..]);
            |f| < 42 || f[12] != 0x08 || f[13] != 0x00 || f[14] % 16 != 5 || f[20] % 64 != 0 || f[21] != 0 || f[23] != 17
            ==> action == Pass && frame[..] == f && maps.conntrack == old(maps.conntrack)
  {
    FilterByBytes(frame[..]);
    if ETH_TYPE + 2 + 20 > frame.Length {
      return Pass;
    }
    if Be16(frame[..], ETH_TYPE) != ETHERTYPE_IPV4 {
      return Pass;
    }
    if frame[IP_PROTO] !in {PROTO_UDP, PROTO_TCP, PROTO_ICMP} {
      return Pass;
    }
    if frame[IP_VIHL] % 16 != 5 {
      return Pass;
    }
    if Be16(frame[..], IP_FRAGS) % 0x4000 != 0 {
      return Pass;
    }
    var dstIp := Be32(frame[..], IP_DST);
    var srcIp := Be32(frame[..], IP_SRC);
    if frame[IP_PROTO] != PROTO_UDP {
      return Pass;
    }
    if PAYLOAD > frame.Length {
      return Pass;
    }

    var xlat: Option<NatData>;
    if flag == Snat {
      xlat := ProcessUdpSnat(maps, e, frame, srcIp, dstIp, fib, time);
    } else {
      xlat := ProcessUdpDnat(maps, e, frame, srcIp, dstIp, fib, time);
    }
    if xlat.None? {
      return Pass;
    }
    RewriteMacs(xlat.value.macs, frame);
    var key := xlat.value.devmapKey;
    if key in maps.redirect {
      return Redirect(maps.redirect[key]);
    } else {
      return Pass;
    }
  }

  /**
   * One tick of the sweeper. `order` lists the entries that the iteration yields and `clock` the reading taken
   * at each of them; an entry that the iteration fails to read is not in `order`.
   */
  method Sweep(maps: KernelMaps, order: seq<ConnectionTuple>, clock: seq<Instant>)
    requires |order| == |clock| && forall k :: k in order ==> k in maps.conntrack
    modifies maps`conntrack
    ensures maps.conntrack == Without(old(maps.conntrack), Collected(old(maps.conntrack), order, clock))
  {
    ghost var t := maps.conntrack;
    var toRemove := [];
    for i := 0 to |order|
      invariant maps.conntrack == t && toRemove == Collected(t, order[..i], clock[..i])
    {
      assert order[i] in order;
      CollectedNext(t, order, clock, i);
      if maps.conntrack[order[i]].timeout <= clock[i] {
        toRemove := toRemove + [order[i]];
      }
    }
    assert order[..|order|] == order && clock[..|clock|] == clock;
    assert Without(t, toRemove[..0]) == t;
    for i := 0 to |toRemove|
      invariant maps.conntrack == Without(t, toRemove[..i])
    {
      WithoutNext(t, toRemove, i);
      maps.conntrack := maps.conntrack - {toRemove[i]};
    }
    assert toRemove[..|toRemove|] == toRemove;
  }
}
