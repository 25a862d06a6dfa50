/** The running program takes the steps of the state machine, so every run of it is a run of the machine. */
module Daemon {
  import opened Words
  import opened Common
  import opened Conntrack
  import opened Datapath
  import opened Control
  import opened System
  import opened Unconditional
  import opened PortLaws
  import opened Ticks
  import Ports
  import Timing

  class Natd {
    const maps: KernelMaps
    const app: AppState
    ghost var now: Instant

    ghost predicate Valid()
      reads this, maps, app, app.portAllocator
    {
      app.maps == maps && Bounded(maps.conntrack, now)
    }

    /** The state of the machine that the program's variables represent; between two calls no removal is pending. */
    ghost function Machine(): State
      reads this, maps, app, app.portAllocator
      requires Valid()
    {
      State(maps.conntrack, app.State(), maps.pnic, now, {})
    }

    constructor (maps: KernelMaps, app: AppState, ghost time: Instant)
      requires app.maps == maps && maps.conntrack == map[]
      ensures this.maps == maps && this.app == app && now == time && Valid()
    {
      this.maps, this.app, now := maps, app, time;
    }

    method OnFrame(e: Endian, flag: Flags, frame: array<u8>, fib: Option<FibMacs>, time: Instant)
      returns (action: XdpAction)
      requires Valid() && now <= time
      modifies this`now, maps`conntrack, frame
      ensures Valid()
      ensures var f := old(frame[..]);
              Machine() == if Eligible(f) then Step(old(Machine()), FrameEvent(flag, f, fib), time) else old(Machine())
      ensures var f := old(frame[..]);
              var x := Translation(old(Machine()), flag, f, fib);
              && frame[..] == (if x.Some? then Forwarded(flag, x.value, f) else f)
              && action == ActionOn(maps.redirect, x)
    {
      ghost var before := Machine();
      ghost var f := frame[..];
      action := TryXdpRedirect(maps, e, flag, frame, fib, time);
      if Eligible(f) {
        StepKeepsBound(before, FrameEvent(flag, f, fib), time);
        now := time;
      }
    }

    /** `order` lists the entries that the iteration yields, each once, and `clock` the reading at each of them. */
    method OnTick(order: seq<ConnectionTuple>, clock: seq<Instant>)
      requires Valid() && |order| == |clock| && Ascending(now, clock)
      requires Distinct(order) && forall k :: k in order ==> k in maps.conntrack
      modifies this`now, maps`conntrack
      ensures Valid()
      ensures Machine() == Run(old(Machine()), Tick(old(Machine()), order, clock))
      ensures Legal(Unclashed, old(Machine()), Tick(old(Machine()), order, clock))
    {
      ghost var before := Machine();
      TickIsARun(before, order, clock);
      LegalIsMonotone(Unclashed, before, Tick(before, order, clock));
      LifetimeIsBounded(before, Tick(before, order, clock));
      Datapath.Sweep(maps, order, clock);
      now := LastReading(now, clock);
    }

    method OnExpose(ip: u32, port: u16, insertWorks: bool, ruleWorks: bool, removeWorks: bool) returns (r: Response)
      requires Valid()
      modifies app`rules, maps`expose, app.portAllocator
      ensures Valid()
      ensures var call := Expose(ip, port, insertWorks, ruleWorks, removeWorks);
              && Machine() == Step(old(Machine()), ControlCall(call), now)
              && r == Answer(old(app.State()), call)
    {
      r := app.ExposePort(ip, port, insertWorks, ruleWorks, removeWorks);
    }

    method OnUnexpose(hostPort: u16, lookupWorks: bool, ruleWorks: bool, removeWorks: bool) returns (r: Response)
      requires Valid()
      modifies app`rules, maps`expose, app.portAllocator
      ensures Valid()
      ensures var call := Unexpose(hostPort, lookupWorks, ruleWorks, removeWorks);
              && Machine() == Step(old(Machine()), ControlCall(call), now)
              && r == Answer(old(app.State()), call)
    {
      r := app.UnexposePort(hostPort, lookupWorks, ruleWorks, removeWorks);
    }
  }

  /** The kernel accepts every insertion. */
  predicate AllWork(works: seq<bool>) {
    forall i :: 0 <= i < |works| ==> works[i]
  }

  lemma OneMoreWorks(works: seq<bool>, n: nat)
    requires |works| == n + 1
    ensures AllWork(works) <==> AllWork(works[..n]) && works[n]
  {
    assert works == works[..n] + [works[n]];
    if AllWork(works) {
      assert forall i :: 0 <= i < n ==> works[..n][i] == works[i];
    }
  }

  /** The device map is filled with the containers in `order` and then with the NIC, until an insertion fails. */
  method SetupRedirect(maps: KernelMaps, order: seq<u32>, containers: map<u32, ContainerMetadata>, works: seq<bool>,
                       nicIfindex: u32)
    returns (ok: bool)
    requires |works| == |order| + 1 && forall ip :: ip in order <==> ip in containers
    requires forall ip :: ip in containers ==> containers[ip].ipv4 == ip
    requires maps.redirect == map[]
    modifies maps`redirect
    ensures ok <==> |containers.Keys + {0}| <= REDIRECT_MAX && AllWork(works)
    ensures ok ==> maps.redirect == DeviceMap(containers, nicIfindex)
  {
    var n;
    ok, n := SetupDevmap(maps, order, containers, works[..|order|]);
    OneMoreWorks(works, |order|);
    RoomForTheNic(containers);
    assert ok <==> |containers| <= REDIRECT_MAX && AllWork(works[..|order|]);
    if ok {
      ok := InsertDevice(maps, 0, nicIfindex, works[|order|]);
    }
  }

  lemma RoomForTheNic(containers: map<u32, ContainerMetadata>)
    ensures |containers.Keys + {0}| == |containers| + if 0 in containers then 0 else 1
    ensures VethDevices(containers).Keys == containers.Keys && |VethDevices(containers)| == |containers|
  {
    var devices := VethDevices(containers);
    assert devices.Keys == containers.Keys;
    assert |devices| == |devices.Keys| && |containers| == |containers.Keys|;
    if 0 in containers {
      assert containers.Keys + {0} == containers.Keys;
    }
  }

  /**
   * Start-up: the device map, the NIC, the port pool and the control plane. Only the device map ends it: if the
   * record of the NIC is not written, the packet programs go on to read a zeroed one.
   */
  method StartUp(order: seq<u32>, containers: map<u32, ContainerMetadata>, works: seq<bool>, lower: u16, upper: u16,
                 nic: NicInfo, written: bool, ghost time: Instant)
    returns (daemon: Option<Natd>)
    requires |works| == |order| + 1 && forall ip :: ip in order <==> ip in containers
    requires forall ip :: ip in containers ==> containers[ip].ipv4 == ip
    ensures daemon.Some? <==> |containers.Keys + {0}| <= 256 && AllWork(works)
    ensures daemon.Some? ==>
              var d, record := daemon.value, Some(if written then nic else NicInfo(0, 0));
              && d.Valid() && d.Machine() == Initial(containers, record, Ports.Range(lower, upper), time)
              && d.maps.conntrack == map[] && d.maps.expose == map[] && d.maps.pnic == record
              && d.maps.redirect.Keys == containers.Keys + {0} && d.maps.redirect[0] == nic.nicIfindex
              && (forall ip :: ip in containers && ip != 0 ==> d.maps.redirect[ip] == containers[ip].ifindex)
              && d.app.containerMetas == containers && d.app.rules == multiset{}
              && d.app.portAllocator.ports == Ports.Range(lower, upper)
              && fresh(d) && fresh(d.maps) && fresh(d.app) && fresh(d.app.portAllocator)
  {
    var maps := new KernelMaps();
    var ok := SetupRedirect(maps, order, containers, works, nic.nicIfindex);
    if !ok {
      return None;
    }
    if written {
      maps.pnic := Some(nic);
    }
    var allocator := new Ports.PortAllocator(lower, upper);
    var app := new AppState(maps, allocator, containers);
    var natd := new Natd(maps, app, time);
    return Some(natd);
  }

  /** Start-up establishes everything that the run lemmas assume. */
  lemma StartUpIsSound(containers: map<u32, ContainerMetadata>, nic: NicInfo, lower: u16, upper: u16, now: Instant)
    requires forall ip :: ip in containers ==> containers[ip].ipv4 == ip
    ensures var s, ports := Initial(containers, Some(nic), Ports.Range(lower, upper), now), Ports.Range(lower, upper);
            && Timing.Sound(s) && Conserved(s.control, ports) && InSync(s.control)
            && Pooled(s.control, ports) && Stuck(s.control) == {}
            && Fronted(s, nic.nicIp)
  {
    var s := Initial(containers, Some(nic), Ports.Range(lower, upper), now);
    assert s.control.expose.Keys == {};
    ConservedIsPooled(s.control, Ports.Range(lower, upper));
  }

  /**
   * So from start-up on, ports and rules are in order as long as no failed removal is ignored, the pool stays
   * sound in any case, and every run keeps the invariants of its discipline.
   */
  lemma EveryRunFromStartUp(containers: map<u32, ContainerMetadata>, nic: NicInfo, lower: u16, upper: u16,
                            now: Instant, tr: Trace)
    requires forall ip :: ip in containers ==> containers[ip].ipv4 == ip
    ensures var s, ports := Initial(containers, Some(nic), Ports.Range(lower, upper), now), Ports.Range(lower, upper);
            var end := Run(s, tr);
            && (Conserved(end.control, ports) <==> FailedRemovals(s, tr) == 0)
            && (InSync(end.control) <==> FailedRemovals(s, tr) == 0)
            && Pooled(end.control, ports) && |Stuck(end.control)| == FailedRemovals(s, tr)
            && (Legal(Timely, s, tr) ==> Bounded(end.table, end.now))
            && (Legal(Orderly, s, tr) ==> Separated(end))
            && (Legal(Orderly, s, tr) && AddressedTo(nic.nicIp, tr) ==> Fronted(end, nic.nicIp))
            && (Legal(Clean, s, tr) ==> Timing.Sound(end))
  {
    var s, ports := Initial(containers, Some(nic), Ports.Range(lower, upper), now), Ports.Range(lower, upper);
    StartUpIsSound(containers, nic, lower, upper, now);
    PortsAreConservedIff(s, tr, ports);
    RulesFollowTheMapIff(s, tr);
    PoolStaysSound(s, tr, ports);
    StuckPortsAreCounted(s, tr, ports);
    if Legal(Timely, s, tr) {
      LifetimeIsBounded(s, tr);
    }
    if Legal(Orderly, s, tr) {
      ProgramsStayApart(s, tr);
      if AddressedTo(nic.nicIp, tr) {
        HostFrontsTheContainers(s, tr, nic.nicIp);
      }
    }
    if Legal(Clean, s, tr) {
      Timing.RunsStaySound(s, tr);
    }
  }

  /**
   * And after every orderly run from start-up, an eligible frame that is translated goes out through the NIC if
   * it came in at a veth, and else to the device of the container that it is now addressed to, whatever record
   * of the NIC the programs read.
   */
  lemma FramesReachTheirDevice(containers: map<u32, ContainerMetadata>, record: NicInfo, nicIfindex: u32, lower: u16,
                               upper: u16, now: Instant, tr: Trace, flag: Flags, f: seq<u8>, fib: Option<FibMacs>)
    requires forall ip :: ip in containers ==> containers[ip].ipv4 == ip
    requires var s := Initial(containers, Some(record), Ports.Range(lower, upper), now);
             Legal(Orderly, s, tr) && Eligible(f) && Sited(Run(s, tr), FrameEvent(flag, f, fib))
    ensures var end := Run(Initial(containers, Some(record), Ports.Range(lower, upper), now), tr);
            var x := Translation(end, flag, f, fib);
            x.Some? ==>
              && (flag.Dnat? ==> x.value.natAddr in containers)
              && ActionOn(DeviceMap(containers, nicIfindex), x) == XdpAction.Redirect(
                   if flag.Snat? || x.value.natAddr == 0 then nicIfindex else containers[x.value.natAddr].ifindex)
  {
    var s := Initial(containers, Some(record), Ports.Range(lower, upper), now);
    StartUpIsSound(containers, record, lower, upper, now);
    TranslatedMeansRedirected(s, tr, FrameEvent(flag, f, fib), nicIfindex);
  }
}
