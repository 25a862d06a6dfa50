/** What one packet is to receive and to leave in the table, entry by entry and for a table of any size. */
module Openings {
  import opened Words
  import opened Common
  import opened Conntrack

  /**
   * `after` is `before` with a flow added, as far as there is room: the entry of its own packets, and then, unless
   * its key is taken, the entry for the answers.
   */
  predicate Adds(before: Table, after: Table, k: ConnectionTuple, own: FlowState, r: ConnectionTuple, answer: FlowState) {
    && (forall j :: j in before ==> j in after && after[j] == before[j])
    && (forall j :: j in after ==> j in before || j == k || j == r)
    && (k in after <==> |before| < 65536)
    && (k in after ==> after[k] == own)
    && (r != k && r !in before ==> (r in after <==> |before| + 2 <= 65536) && (r in after ==> after[r] == answer))
  }

  lemma InsertAdds(t: Table, k: ConnectionTuple, s: FlowState)
    requires k !in t
    ensures var t' := InsertNoExist(t, k, s);
            if |t| < 65536 then t' == t[k := s] && |t'| == |t| + 1 else t' == t
  {
    assert t[k := s].Keys == t.Keys + {k};
    assert |t[k := s]| == |t[k := s].Keys|;
  }

  lemma CreatedAdds(flag: Flags, t: Table, k: ConnectionTuple, o: Opening, now: Instant)
    requires k !in t
    ensures Adds(t, Created(flag, t, k, o, now),
                 k, FlowState(o.forward, Original, false, now + 30_000_000_000),
                 ReverseKey(flag, k, o.forward), FlowState(o.backward, Reply, false, now + 30_000_000_000))
  {
    var t1 := InsertNoExist(t, k, NewFlow(o.forward, Original, now + TIMEOUT_NEW));
    InsertAdds(t, k, NewFlow(o.forward, Original, now + TIMEOUT_NEW));
    var r := ReverseKey(flag, k, o.forward);
    if r !in t1 {
      InsertAdds(t1, r, NewFlow(o.backward, Reply, now + TIMEOUT_NEW));
    }
  }

  /**
   * A container's packet without an entry is translated exactly if the NIC and a route are known. It leaves from
   * the NIC's address, under its own port, and the answers to that endpoint are led back to the container.
   */
  lemma ContainersPacketOpens(t: Table, pnic: Option<NicInfo>, expose: map<u16, ContainerInfo>, k: ConnectionTuple,
                              mac: Mac, fib: Option<FibMacs>, now: Instant)
    requires k !in t
    ensures var o := Open(Snat, pnic, expose, k, mac, fib);
            var x, t' := TranslationOf(t, k, o), TableAfter(Snat, t, k, o, now);
            if pnic.Some? && fib.Some? then
              && x == Some(NatData(pnic.value.nicIp, k.srcPort, fib.value, 0))
              && Adds(t, t', k, FlowState(x.value, Original, false, now + 30_000_000_000),
                      ConnectionTuple(k.dstAddr, pnic.value.nicIp, k.dstPort, k.srcPort),
                      FlowState(NatData(k.srcAddr, k.srcPort, FibMacs(fib.value.smac, mac), k.srcAddr),
                                Reply, false, now + 30_000_000_000))
            else
              x == None && t' == t
  {
    var o := Open(Snat, pnic, expose, k, mac, fib);
    if o.Some? {
      CreatedAdds(Snat, t, k, o.value, now);
    }
  }

  /**
   * A packet at the NIC without an entry is translated exactly if its port is exposed and a route is known. It goes
   * to the container and the port that are exposed there, and the answers leave from the endpoint it was sent to.
   */
  lemma ServicePacketOpens(t: Table, pnic: Option<NicInfo>, expose: map<u16, ContainerInfo>, k: ConnectionTuple,
                           mac: Mac, fib: Option<FibMacs>, now: Instant)
    requires k !in t
    ensures var o := Open(Dnat, pnic, expose, k, mac, fib);
            var x, t' := TranslationOf(t, k, o), TableAfter(Dnat, t, k, o, now);
            if k.dstPort in expose && fib.Some? then
              var to := expose[k.dstPort];
              && x == Some(NatData(to.containerIp, to.containerPort, FibMacs(mac, to.containerMac), to.containerIp))
              && Adds(t, t', k, FlowState(x.value, Original, false, now + 30_000_000_000),
                      ConnectionTuple(to.containerIp, k.srcAddr, to.containerPort, k.srcPort),
                      FlowState(NatData(k.dstAddr, k.dstPort, fib.value, 0), Reply, false, now + 30_000_000_000))
            else
              x == None && t' == t
  {
    var o := Open(Dnat, pnic, expose, k, mac, fib);
    if o.Some? {
      CreatedAdds(Dnat, t, k, o.value, now);
    }
  }

  /** The deadline that a packet moves an entry to, if it does. */
  function Renewal(s: FlowState, now: Instant): Option<u64> {
    var replied := s.seenReply || s.direction == Reply;
    var deadline := if replied then now + 180_000_000_000 else now + 30_000_000_000;
    if deadline - s.timeout > 1_000_000_000 || replied != s.seenReply then Some(deadline) else None
  }

  /**
   * `after` is `before` with the entry at `k` renewed if it is due, and its reverse entry, if there is one, brought
   * in line; nothing else changes.
   */
  predicate Renews(flag: Flags, before: Table, after: Table, k: ConnectionTuple, now: Instant)
    requires k in before
  {
    var x, due := before[k].xlat, Renewal(before[k], now);
    var r := if flag == Snat then ConnectionTuple(k.dstAddr, x.natAddr, k.dstPort, x.natPort)
             else ConnectionTuple(x.natAddr, k.srcAddr, x.natPort, k.srcPort);
    && after.Keys == before.Keys
    && (due == None ==> after == before)
    && (forall j :: j in before && j != k && j != r ==> after[j] == before[j])
    && (due.Some? ==> forall j :: j in before && (j == k || j == r) ==>
          after[j] == FlowState(before[j].xlat, before[j].direction,
                                before[k].seenReply || before[k].direction == Reply, due.value))
  }

  /** A packet with an entry receives the translation that is stored there. */
  lemma PacketHits(flag: Flags, t: Table, k: ConnectionTuple, o: Option<Opening>, now: Instant)
    requires k in t
    ensures TranslationOf(t, k, o) == Some(t[k].xlat)
    ensures Renews(flag, t, TableAfter(flag, t, k, o, now), k, now)
  {
  }
}
