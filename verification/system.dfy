/** The whole system as a state machine: packets, sweeps and control-plane calls, in any order. */
module System {
  import opened Words
  import opened Common
  import opened Conntrack
  import opened Control
  import Packet
  import Rewrite
  import Datapath

  /** One packet is one atomic step; so is one control-plane call, which holds the write lock. */
  datatype Event =
    | Packet(flag: Flags, key: ConnectionTuple, mac: Mac, fib: Option<FibMacs>)
    | Sweep                            // a sweep with one clock reading, which nothing interrupts
    | Collect(visited: ConnectionTuple)  // a sweep visits one entry, and notes its key if it has expired
    | Remove(stale: ConnectionTuple)     // a sweep removes one key
    | ControlCall(call: Call)

  /** The event that a frame is to the state machine. */
  function FrameEvent(flag: Flags, f: seq<u8>, fib: Option<FibMacs>): Event
    requires Packet.HasHeaders(f)
  {
    Event.Packet(flag, Rewrite.TupleOf(f), Datapath.LocalMac(flag, f), fib)
  }

  /**
   * The state between two steps: `now` is the last clock reading, and `pending` are the keys that a sweep has
   * collected and not yet removed.
   */
  datatype State = State(
    table: Table,
    control: ControlState,
    pnic: Option<NicInfo>,
    now: Instant,
    pending: set<ConnectionTuple>)

  /** A run: a sequence of events, each with its clock reading. */
  datatype Trace = Start | Then(before: Trace, last: Event, at: Instant)

  function Opens(s: State, e: Event): Option<Opening>
    requires e.Packet?
  {
    Open(e.flag, s.pnic, s.control.expose, e.key, e.mac, e.fib)
  }

  /** The translation that a frame receives in a state. */
  function Translation(s: State, flag: Flags, f: seq<u8>, fib: Option<FibMacs>): Option<NatData> {
    Datapath.TranslationFor(flag, s.table, s.pnic, s.control.expose, f, fib)
  }

  function Step(s: State, e: Event, at: Instant): State {
    match e
    case Packet(flag, key, _, _) => s.(table := TableAfter(flag, s.table, key, Opens(s, e), at), now := at)
    case Sweep => s.(table := Swept(s.table, at), now := at)
    case Collect(visited) =>
      var expired := visited in s.table && s.table[visited].timeout <= at;
      s.(pending := if expired then s.pending + {visited} else s.pending, now := at)
    case Remove(stale) => s.(table := s.table - {stale}, pending := s.pending - {stale}, now := at)
    case ControlCall(call) => s.(control := After(s.control, call), now := at)
  }

  function Run(s: State, tr: Trace): State {
    match tr
    case Start => s
    case Then(before, last, at) => Step(Run(s, before), last, at)
  }

  /** The daemon after start-up: no flows, no exposures, all ports free. */
  function Initial(containers: map<u32, ContainerMetadata>, pnic: Option<NicInfo>, ports: seq<u16>, now: Instant): State {
    State(map[], ControlState(ports, map[], multiset{}, containers), pnic, now, {})
  }

  predicate IsContainer(s: State, ip: u32) {
    ip in s.control.containers
  }

  /**
   * The network keeps its promises: at a veth the source is a container and the destination is not, and at the
   * NIC the source is not a container. The programs check none of this.
   */
  predicate Sited(s: State, e: Event) {
    e.Packet? ==>
      match e.flag
      case Snat => IsContainer(s, e.key.srcAddr) && !IsContainer(s, e.key.dstAddr)
      case Dnat => !IsContainer(s, e.key.srcAddr)
  }

  /** The packet opens a flow whose reverse key another flow already owns. */
  predicate Clashes(s: State, e: Event) {
    && e.Packet? && e.key !in s.table && Opens(s, e).Some?
    && ReverseKey(e.flag, e.key, Opens(s, e).value.forward) in s.table
    && |s.table| < CONNTRACK_MAX
  }

  /** What is asked of a run: a monotone clock, a well-behaved network, no clashes, and no single removals. */
  datatype Discipline = Timely | Orderly | Unclashed | Clean

  predicate Allowed(d: Discipline, s: State, e: Event, at: Instant) {
    && s.now <= at
    && (d != Timely ==> Sited(s, e))
    && (d == Unclashed || d == Clean ==> !Clashes(s, e))
    && (d == Clean ==> !e.Remove?)
  }

  predicate Legal(d: Discipline, s: State, tr: Trace) {
    match tr
    case Start => true
    case Then(before, last, at) => Legal(d, s, before) && Allowed(d, Run(s, before), last, at)
  }

  /** The entry at `k` is present at every point of the run. */
  predicate AliveThroughout(s: State, tr: Trace, k: ConnectionTuple) {
    k in Run(s, tr).table && (tr.Then? ==> AliveThroughout(s, tr.before, k))
  }

  /** A sweep removes only keys that it has collected. */
  predicate DrawsFromPending(s: State, tr: Trace) {
    tr.Then? ==>
      DrawsFromPending(s, tr.before) && (tr.last.Remove? ==> tr.last.stale in Run(s, tr.before).pending)
  }

  /** Every sweep of the run, atomic or not, reads the clock before `limit`. */
  predicate SweepsBefore(tr: Trace, limit: int) {
    tr.Then? ==> SweepsBefore(tr.before, limit) && (tr.last.Sweep? || tr.last.Collect? ==> tr.at < limit)
  }

  /** No sweep of the run removes `k` singly. */
  predicate NeverRemoves(tr: Trace, k: ConnectionTuple) {
    tr.Then? ==> NeverRemoves(tr.before, k) && tr.last != Remove(k)
  }

  lemma {:induction false} LegalIsMonotone(d: Discipline, s: State, tr: Trace)
    requires Legal(d, s, tr)
    ensures Legal(Timely, s, tr)
    ensures d != Timely ==> Legal(Orderly, s, tr)
    ensures d == Clean ==> Legal(Unclashed, s, tr)
  {
    if tr.Then? {
      LegalIsMonotone(d, s, tr.before);
    }
  }

  /** No event changes the set of containers or the NIC, and the clock never goes back. */
  lemma {:induction false} RunKeepsTheSite(s: State, tr: Trace)
    ensures Run(s, tr).control.containers == s.control.containers && Run(s, tr).pnic == s.pnic
    ensures Legal(Timely, s, tr) ==> s.now <= Run(s, tr).now
  {
    if tr.Then? {
      RunKeepsTheSite(s, tr.before);
    }
  }
}
