/** The UDP connection table and what one packet does to it. */
module Conntrack {
  import opened Words
  import opened Common
  import opened Rewrite

  const CONNTRACK_MAX := 65536
  const THRESHOLD_NS := 1_000_000_000

  /** Which of the two programs runs: SNAT at a container's veth, DNAT at the host's NIC. */
  datatype Flags = Snat | Dnat {
    /** The endpoint that the program rewrites. */
    function Rewritten(): Endpoint {
      if Snat? then Source else Destination
    }
  }

  type Table = map<ConnectionTuple, FlowState>

  /** The tuple of the packet that leaves the program. */
  function TranslatedTuple(flag: Flags, k: ConnectionTuple, xlat: NatData): ConnectionTuple {
    Redirected(flag.Rewritten(), k, xlat.natAddr, xlat.natPort)
  }

  /** The key that the answer to the translated packet carries when it reaches the other program. */
  function ReverseKey(flag: Flags, k: ConnectionTuple, xlat: NatData): ConnectionTuple {
    TranslatedTuple(flag, k, xlat).Swapped()
  }

  /** The timeout that a packet arriving at `now` would give the entry. */
  function Deadline(s: FlowState, now: Instant): u64 {
    now + if s.seenReply || s.direction.Reply? then TIMEOUT_EST else TIMEOUT_NEW
  }

  /** Entries are rewritten lazily: on the first reply, and when the deadline has moved by over a second. */
  predicate NeedsRefresh(s: FlowState, now: Instant) {
    (s.direction.Reply? && !s.seenReply) || Deadline(s, now) > s.timeout + THRESHOLD_NS
  }

  function Refreshed(s: FlowState, now: Instant): FlowState {
    s.(seenReply := s.seenReply || s.direction.Reply?, timeout := Deadline(s, now))
  }

  /** `r` with the mutable fields of `s`. */
  function Mirrored(r: FlowState, s: FlowState): FlowState {
    r.(seenReply := s.seenReply, timeout := s.timeout)
  }

  /** The entry at `k` is refreshed and, if present, its reverse entry mirrors it. */
  function RefreshedPair(t: Table, k: ConnectionTuple, rk: ConnectionTuple, now: Instant): Table
    requires k in t
  {
    var s := Refreshed(t[k], now);
    var t1 := t[k := s];
    if rk in t1 then t1[rk := Mirrored(t1[rk], s)] else t1
  }

  function Touched(t: Table, k: ConnectionTuple, rk: ConnectionTuple, now: Instant): Table
    requires k in t
  {
    if NeedsRefresh(t[k], now) then RefreshedPair(t, k, rk, now) else t
  }

  /** Insertion with `BPF_NOEXIST`, whose failure the programs ignore. */
  function InsertNoExist(t: Table, k: ConnectionTuple, s: FlowState): Table {
    if k in t || |t| >= CONNTRACK_MAX then t else t[k := s]
  }

  /** The translations of a new flow: of its own packets, and of their answers. */
  datatype Opening = Opening(forward: NatData, backward: NatData)

  /** What a packet without an entry would open, if the NIC, the exposed port and the route are known. */
  function Open(flag: Flags, pnic: Option<NicInfo>, expose: map<u16, ContainerInfo>,
                k: ConnectionTuple, mac: Mac, fib: Option<FibMacs>): Option<Opening>
  {
    match flag
    case Snat =>
      if pnic.None? || fib.None? then None else
      Some(Opening(NatData(pnic.value.nicIp, k.srcPort, fib.value, 0),
                   NatData(k.srcAddr, k.srcPort, FibMacs(fib.value.smac, mac), k.srcAddr)))
    case Dnat =>
      if k.dstPort !in expose || fib.None? then None else
      var info := expose[k.dstPort];
      Some(Opening(NatData(info.containerIp, info.containerPort, FibMacs(mac, info.containerMac), info.containerIp),
                   NatData(k.dstAddr, k.dstPort, fib.value, 0)))
  }

  function Created(flag: Flags, t: Table, k: ConnectionTuple, o: Opening, now: Instant): Table {
    var t1 := InsertNoExist(t, k, NewFlow(o.forward, Original, now + TIMEOUT_NEW));
    InsertNoExist(t1, ReverseKey(flag, k, o.forward), NewFlow(o.backward, Reply, now + TIMEOUT_NEW))
  }

  /** The table after a packet, given what it would open. */
  function TableAfter(flag: Flags, t: Table, k: ConnectionTuple, o: Option<Opening>, now: Instant): Table {
    if k in t then Touched(t, k, ReverseKey(flag, k, t[k].xlat), now)
    else if o.Some? then Created(flag, t, k, o.value, now)
    else t
  }

  /** The translation that a packet receives; without one it is passed on to the kernel. */
  function TranslationOf(t: Table, k: ConnectionTuple, o: Option<Opening>): Option<NatData> {
    if k in t then Some(t[k].xlat) else if o.Some? then Some(o.value.forward) else None
  }

  /** The keys that a sweep collects: `order[i]` is visited at the clock reading `clock[i]`. */
  function Collected(t: Table, order: seq<ConnectionTuple>, clock: seq<Instant>): (r: seq<ConnectionTuple>)
    requires |order| == |clock|
    ensures forall k :: k in r <==> exists i :: 0 <= i < |order| && order[i] == k && k in t && t[k].timeout <= clock[i]
  {
    if order == [] then []
    else
      var n := |order| - 1;
      var before := Collected(t, order[..n], clock[..n]);
      if order[n] in t && t[order[n]].timeout <= clock[n] then before + [order[n]] else before
  }

  lemma CollectedNext(t: Table, order: seq<ConnectionTuple>, clock: seq<Instant>, i: nat)
    requires i < |order| == |clock| && order[i] in t
    ensures Collected(t, order[..i + 1], clock[..i + 1])
         == Collected(t, order[..i], clock[..i]) + if t[order[i]].timeout <= clock[i] then [order[i]] else []
  {
    assert order[..i + 1][..i] == order[..i] && clock[..i + 1][..i] == clock[..i];
  }

  /** `t` without the keys in `ks`. */
  function Without(t: Table, ks: seq<ConnectionTuple>): Table {
    t - (set k | k in ks)
  }

  lemma WithoutNext(t: Table, ks: seq<ConnectionTuple>, i: nat)
    requires i < |ks|
    ensures Without(t, ks[..i + 1]) == Without(t, ks[..i]) - {ks[i]}
  {
    assert ks[..i + 1] == ks[..i] + [ks[i]];
  }

  /** A sweep that reads the clock once. */
  function Swept(t: Table, now: Instant): Table {
    map k | k in t && t[k].timeout > now :: t[k]
  }
}
