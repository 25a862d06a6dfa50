/**
 * A run from start-up to an entry that a packet promises to keep and that an orphan undermines: no two flows ever
 * want the same key, and no sweep has collected anything when the packet comes.
 */
module Orphans {
  import opened Common
  import opened Conntrack
  import opened Control
  import opened System
  import opened Pairing
  import opened Retention

  const SECOND := 1_000_000_000
  const MAC: Mac := [0, 0, 0, 0, 0, 0]
  const MACS := FibMacs(MAC, MAC)

  /** Container 10 talks to the remote host 99, whose answers come to the NIC at 50. */
  const Outgoing := ConnectionTuple(10, 99, 1, 2)
  const Answer := ConnectionTuple(99, 50, 2, 1)
  /** The same answers lead to container 11 if its port 9 is exposed as port 1; this is how it answers them. */
  const Service := ConnectionTuple(11, 99, 9, 2)

  function Begin(): State {
    Initial(map[10 := ContainerMetadata(10, MAC, 4), 11 := ContainerMetadata(11, MAC, 5)], Some(NicInfo(50, 3)), [1], 0)
  }

  /** Container 10 opens a flow whose reverse entry, when it expires, is collected a moment before its own. */
  function Orphaning(): Trace {
    var exposed := Then(Start, ControlCall(Expose(11, 9, true, true, true)), 0);
    var talking := Then(exposed, Event.Packet(Snat, Outgoing, MAC, Some(MACS)), 0);
    Then(Then(talking, Collect(Answer), 30 * SECOND), Remove(Answer), 30 * SECOND)
  }

  /** Then the remote host opens a flow to the exposed port under the key that has become free. */
  function Story(): Trace {
    Then(Orphaning(), Event.Packet(Dnat, Answer, MAC, Some(MACS)), 30 * SECOND)
  }

  const Orphan := NewFlow(NatData(50, 1, MACS, 0), Original, 30 * SECOND)
  const Reopened := NewFlow(NatData(11, 9, MACS, 11), Original, 60 * SECOND)
  const Backward := NewFlow(NatData(50, 1, MACS, 0), Reply, 60 * SECOND)

  lemma FlowIsOpened()
    ensures var s := Run(Begin(), Orphaning().before.before);
            && s.table == map[Outgoing := Orphan, Answer := NewFlow(NatData(10, 1, MACS, 10), Reply, 30 * SECOND)]
            && s.control.containers == Begin().control.containers && s.pnic == Some(NicInfo(50, 3))
            && s.control.expose == map[1 := ContainerInfo(11, MAC, 9, 5)] && s.now == 0 && s.pending == {}
    ensures Legal(Unclashed, Begin(), Orphaning().before.before)
    ensures DrawsFromPending(Begin(), Orphaning().before.before)
  {
    var talking := Orphaning().before.before;
    var exposed := talking.before;
    assert Run(Begin(), Start) == Begin();
    assert Run(Begin(), exposed) == Step(Begin(), exposed.last, 0);
    assert Run(Begin(), talking) == Step(Run(Begin(), exposed), talking.last, 0);
  }

  lemma FlowIsOrphaned()
    ensures var s := Run(Begin(), Orphaning());
            && s.table == map[Outgoing := Orphan]
            && s.control.containers == Begin().control.containers && s.pnic == Some(NicInfo(50, 3))
            && s.control.expose == map[1 := ContainerInfo(11, MAC, 9, 5)] && s.now == 30 * SECOND && s.pending == {}
    ensures Legal(Unclashed, Begin(), Orphaning()) && DrawsFromPending(Begin(), Orphaning())
  {
    FlowIsOpened();
    var visited := Orphaning().before;
    assert Run(Begin(), visited) == Step(Run(Begin(), visited.before), visited.last, 30 * SECOND);
    assert Run(Begin(), Orphaning()) == Step(Run(Begin(), visited), Orphaning().last, 30 * SECOND);
  }

  lemma KeyIsReopened()
    ensures var s := Run(Begin(), Story());
            && s.table == map[Outgoing := Orphan, Answer := Reopened, Service := Backward]
            && s.control.containers == Begin().control.containers && s.now == 30 * SECOND && s.pending == {}
    ensures Legal(Unclashed, Begin(), Story()) && DrawsFromPending(Begin(), Story())
  {
    FlowIsOrphaned();
    var s, e := Run(Begin(), Orphaning()), Story().last;
    Reopening(s, e);
    assert Run(Begin(), Story()) == Step(s, e, 30 * SECOND);
  }

  lemma Reopening(s: State, e: Event)
    requires s.table == map[Outgoing := Orphan] && s.control.expose == map[1 := ContainerInfo(11, MAC, 9, 5)]
    requires e == Event.Packet(Dnat, Answer, MAC, Some(MACS)) && s.control.containers == Begin().control.containers
    requires s.now == 30 * SECOND
    ensures Allowed(Unclashed, s, e, 30 * SECOND)
    ensures Step(s, e, 30 * SECOND).table == map[Outgoing := Orphan, Answer := Reopened, Service := Backward]
  {
    var o := Opens(s, e);
    assert o == Some(Opening(NatData(11, 9, MACS, 11), NatData(50, 1, MACS, 0)));
    assert ReverseKey(Dnat, Answer, o.value.forward) == Service;
  }

  /** The packet with which container 11 answers. */
  const Hit := Event.Packet(Snat, Service, MAC, None)

  lemma ServiceAnswers(s: State)
    requires s.table == map[Outgoing := Orphan, Answer := Reopened, Service := Backward]
    requires s.control.containers == Begin().control.containers && s.now == 30 * SECOND
    ensures Allowed(Unclashed, s, Hit, 31 * SECOND)
    ensures var s1 := Step(s, Hit, 31 * SECOND);
            s1.table == map[Outgoing := Orphan,
                            Answer := Reopened.(seenReply := true, timeout := 211 * SECOND),
                            Service := Backward.(seenReply := true, timeout := 211 * SECOND)]
  {
    assert ReverseKey(Snat, Service, Backward.xlat) == Answer;
  }

  lemma OrphanLeads(s: State, limit: int)
    requires s.control.containers == Begin().control.containers && s.now == 31 * SECOND && limit == 210 * SECOND
    requires Outgoing in s.table && s.table[Outgoing] == Orphan
    requires Answer in s.table && s.table[Answer] == Reopened.(seenReply := true, timeout := 211 * SECOND)
    ensures Undermines(s, [Outgoing], Answer, limit) && Undermines(s, [Outgoing, Answer], Service, limit)
  {
    assert Twin(s, Outgoing) == Answer && Twin(s, Answer) == Service;
    assert Leads(s, [], Answer) && Leads(s, [], Service);
    assert [Outgoing][1..] == [] && [Outgoing, Answer][1..] == [Answer] && [Answer][1..] == [];
    assert Leads(s, [Answer], Service);
  }

  /**
   * That packet is promised 180 s. But the orphan still leads to the reopened key, and through it to the entry
   * that was hit: a packet of container 10 and one of the remote host are enough to break the promise.
   */
  lemma OrphanUndermines()
    ensures var s := Run(Begin(), Story());
            var s1 := Step(s, Hit, 31 * SECOND);
            && Legal(Unclashed, Begin(), Story()) && DrawsFromPending(Begin(), Story()) && s.pending == {}
            && Allowed(Unclashed, s, Hit, 31 * SECOND)
            && Service in s1.table && Twin(s1, Service) == Answer && KeptUntil(s, Hit, 31 * SECOND) == 210 * SECOND
            && Undermined(s1, Service, 210 * SECOND) && Undermined(s1, Answer, 210 * SECOND)
  {
    KeyIsReopened();
    ServiceAnswers(Run(Begin(), Story()));
    OrphanLeads(Step(Run(Begin(), Story()), Hit, 31 * SECOND), 210 * SECOND);
  }
}
