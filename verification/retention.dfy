/** How long a flow is kept while sweeps remove entries one by one and packets come in between. */
module Retention {
  import opened Common
  import opened Conntrack
  import opened System
  import opened Unconditional
  import opened Pairing
  import opened Timing

  /** What an orderly run keeps, whatever entries are removed. */
  predicate Sane(s: State) {
    Bounded(s.table, s.now) && Separated(s) && WellKeyed(s.control) && KnownExposures(s.control)
  }

  lemma StepStaysSane(s: State, e: Event, at: Instant)
    requires Sane(s) && Allowed(Unclashed, s, e, at)
    ensures Sane(Step(s, e, at))
  {
    StepKeepsBound(s, e, at);
    StepKeepsSeparation(s, e, at);
  }

  /**
   * A chain of original entries, each the reverse of the one before, up to `k`. A hit on an unanswered one takes
   * the reply of the next one away, which makes that one unanswered too.
   */
  predicate Leads(s: State, chain: seq<ConnectionTuple>, k: ConnectionTuple) {
    chain != [] ==>
      && chain[0] in s.table && s.table[chain[0]].direction.Original?
      && Twin(s, chain[0]) == First(chain[1..], k)
      && Leads(s, chain[1..], k)
  }

  function First(chain: seq<ConnectionTuple>, k: ConnectionTuple): ConnectionTuple {
    if chain == [] then k else chain[0]
  }

  function Max(a: int, b: int): int {
    if a < b then b else a
  }

  /**
   * The earliest timeout that hits along the chain can leave at its end: the first hit comes when the first
   * entry is due, and each further one as soon as the entry that was just lowered is due again.
   */
  function LowersTo(s: State, chain: seq<ConnectionTuple>): int
    requires chain != [] && chain[0] in s.table
  {
    Max(s.now, s.table[chain[0]].timeout + THRESHOLD_NS - TIMEOUT_NEW + 1)
    + (|chain| - 1) * (THRESHOLD_NS + 1) + TIMEOUT_NEW
  }

  /** The chain begins with an unanswered entry, and brings the timeout of `k` below `limit`. */
  predicate Undermines(s: State, chain: seq<ConnectionTuple>, k: ConnectionTuple, limit: int) {
    && chain != [] && Leads(s, chain, k) && chain[0] in s.table && !s.table[chain[0]].seenReply
    && LowersTo(s, chain) < limit
  }

  ghost predicate Undermined(s: State, k: ConnectionTuple, limit: int) {
    exists chain :: Undermines(s, chain, k, limit)
  }

  /** The entry is to live up to `limit`, and no hits on other entries can change that. */
  ghost predicate Secure(s: State, k: ConnectionTuple, limit: int) {
    k in s.table && limit <= s.table[k].timeout && !Undermined(s, k, limit)
  }

  lemma TwinDiffers(s: State, k: ConnectionTuple)
    requires Separated(s) && k in s.table
    ensures Twin(s, k) != k
  {
    assert SeparatedAt(s, k);
  }

  lemma HitKeepsTwins(s: State, e: Event, at: Instant)
    requires e.Packet? && e.key in s.table && Sited(s, e)
    ensures SameFlows(s, Step(s, e, at))
    ensures Step(s, e, at).table == Touched(s.table, e.key, Twin(s, e.key), at)
  {
    TouchedFrame(s.table, e.key, Twin(s, e.key), at);
  }

  /** Entries that keep their reverse and direction keep their chains. */
  lemma {:induction false} ChainCarriesOver(s: State, s': State, chain: seq<ConnectionTuple>, k: ConnectionTuple)
    requires Leads(s', chain, k)
    requires forall j :: j in s'.table ==>
               j in s.table && Twin(s, j) == Twin(s', j) && s.table[j].direction == s'.table[j].direction
    ensures Leads(s, chain, k)
  {
    if chain != [] {
      ChainCarriesOver(s, s', chain[1..], k);
    }
  }

  /** When entries go and none is rewritten, a chain lowers its end no earlier than before. */
  lemma ShrinkingKeepsSecure(s: State, s': State, k: ConnectionTuple, limit: int)
    requires Secure(s, k, limit) && k in s'.table && s'.control.containers == s.control.containers && s.now <= s'.now
    requires forall j :: j in s'.table ==> j in s.table && s'.table[j] == s.table[j]
    ensures Secure(s', k, limit)
  {
    forall chain | Undermines(s', chain, k, limit)
      ensures Undermines(s, chain, k, limit)
    {
      ChainCarriesOver(s, s', chain, k);
    }
  }

  /** The entries of a new flow lead to each other, and to nobody else's. */
  lemma NewEntriesLeadToEachOther(s: State, e: Event, at: Instant, j: ConnectionTuple)
    requires KnownExposures(s.control) && e.Packet? && Sited(s, e) && e.key !in s.table && Opens(s, e).Some?
    requires j !in s.table && j in Step(s, e, at).table
    ensures var r := ReverseKey(e.flag, e.key, Opens(s, e).value.forward);
            (j == e.key && Twin(Step(s, e, at), j) == r) || (j == r && Twin(Step(s, e, at), j) == e.key)
  {
    CreatedFrame(e.flag, s.table, e.key, Opens(s, e).value, at);
  }

  /** Nothing new leads to an old entry. */
  lemma {:induction false} ChainIsOld(s: State, e: Event, at: Instant, chain: seq<ConnectionTuple>, k: ConnectionTuple)
    requires Sane(s) && Allowed(Unclashed, s, e, at) && e.Packet? && e.key !in s.table && Opens(s, e).Some?
    requires k in s.table && Leads(Step(s, e, at), chain, k)
    ensures Leads(s, chain, k)
  {
    if chain != [] {
      CreatedFrame(e.flag, s.table, e.key, Opens(s, e).value, at);
      ChainIsOld(s, e, at, chain[1..], k);
      assert First(chain[1..], k) in s.table;
      if chain[0] !in s.table {
        NewEntriesLeadToEachOther(s, e, at, chain[0]);
      }
    }
  }

  lemma OpeningKeepsSecure(s: State, e: Event, at: Instant, k: ConnectionTuple, limit: int)
    requires Sane(s) && Allowed(Unclashed, s, e, at) && Secure(s, k, limit)
    requires e.Packet? && e.key !in s.table && Opens(s, e).Some?
    ensures Secure(Step(s, e, at), k, limit)
  {
    var s' := Step(s, e, at);
    CreatedFrame(e.flag, s.table, e.key, Opens(s, e).value, at);
    forall chain | Undermines(s', chain, k, limit)
      ensures Undermines(s, chain, k, limit)
    {
      ChainIsOld(s, e, at, chain, k);
    }
  }

  /** A hit keeps a chain, and if it left the first entry unanswered it was a hit on the entry before it. */
  lemma HitChain(s: State, e: Event, at: Instant, chain: seq<ConnectionTuple>, k: ConnectionTuple, limit: int)
    requires Sane(s) && Allowed(Unclashed, s, e, at) && e.Packet? && e.key in s.table
    requires Undermines(Step(s, e, at), chain, k, limit)
    ensures Undermines(s, chain, k, limit) || Undermines(s, [e.key] + chain, k, limit)
  {
    var s', j, r := Step(s, e, at), chain[0], Twin(s, e.key);
    HitKeepsTwins(s, e, at);
    TwinDiffers(s, e.key);
    TouchedFrame(s.table, e.key, r, at);
    ChainCarriesOver(s, s', chain, k);
    if s.table[j].seenReply {
      HitLowersReverseIff(s.table, e.key, r, at);
      assert j == r;
      assert ([e.key] + chain)[1..] == chain;
      assert Leads(s, [e.key] + chain, k);
    }
  }

  lemma HitKeepsSecure(s: State, e: Event, at: Instant, k: ConnectionTuple, limit: int)
    requires Sane(s) && Allowed(Unclashed, s, e, at) && Secure(s, k, limit) && limit <= s.now + TIMEOUT_EST
    requires e.Packet? && e.key in s.table
    ensures Secure(Step(s, e, at), k, limit)
  {
    var s', r := Step(s, e, at), Twin(s, e.key);
    HitKeepsTwins(s, e, at);
    TwinDiffers(s, e.key);
    TouchedFrame(s.table, e.key, r, at);
    if k == r {
      HitLowersReverseIff(s.table, e.key, r, at);
      if IsUnansweredAndDue(s.table[e.key], at) {
        assert Leads(s, [e.key], k);
        assert !Undermines(s, [e.key], k, limit);
      }
    }
    forall chain | Undermines(s', chain, k, limit)
      ensures Undermined(s, k, limit)
    {
      HitChain(s, e, at, chain, k, limit);
    }
  }

  lemma StepKeepsSecure(s: State, e: Event, at: Instant, k: ConnectionTuple, limit: int)
    requires Sane(s) && Allowed(Unclashed, s, e, at) && Secure(s, k, limit) && limit <= s.now + TIMEOUT_EST
    requires e.Sweep? ==> at < limit
    ensures k in Step(s, e, at).table <==> e != Remove(k)
    ensures k in Step(s, e, at).table ==> Secure(Step(s, e, at), k, limit)
  {
    if e.Packet? && e.key in s.table {
      HitKeepsSecure(s, e, at, k, limit);
    } else if e.Packet? && Opens(s, e).Some? {
      OpeningKeepsSecure(s, e, at, k, limit);
    } else if e != Remove(k) {
      ShrinkingKeepsSecure(s, Step(s, e, at), k, limit);
    }
  }

  /** A secure entry is there up to `limit` exactly as long as it is not removed singly. */
  lemma {:induction false} SecureStays(s: State, tr: Trace, k: ConnectionTuple, limit: int)
    requires Sane(s) && Secure(s, k, limit) && limit <= s.now + TIMEOUT_EST
    requires Legal(Unclashed, s, tr) && SweepsBefore(tr, limit)
    ensures Sane(Run(s, tr)) && s.now <= Run(s, tr).now
    ensures AliveThroughout(s, tr, k) <==> NeverRemoves(tr, k)
    ensures AliveThroughout(s, tr, k) ==> Secure(Run(s, tr), k, limit)
  {
    if tr.Then? {
      SecureStays(s, tr.before, k, limit);
      StepStaysSane(Run(s, tr.before), tr.last, tr.at);
      if AliveThroughout(s, tr.before, k) {
        StepKeepsSecure(Run(s, tr.before), tr.last, tr.at, k, limit);
      }
    }
  }

  /** A run in which sweeps collect before they remove, packets come in between, and no sweep comes too late. */
  predicate Interleaved(s: State, tr: Trace, limit: int) {
    Legal(Unclashed, s, tr) && DrawsFromPending(s, tr) && SweepsBefore(tr, limit)
  }

  /** An entry that is secure and not pending is never collected before `limit`, and therefore not removed. */
  lemma {:induction false} SecureIsNotCollected(s: State, tr: Trace, k: ConnectionTuple, limit: int)
    requires Sane(s) && Secure(s, k, limit) && limit <= s.now + TIMEOUT_EST && k !in s.pending
    requires Interleaved(s, tr, limit)
    ensures NeverRemoves(tr, k) && k !in Run(s, tr).pending
  {
    if tr.Then? {
      SecureIsNotCollected(s, tr.before, k, limit);
      SecureStays(s, tr.before, k, limit);
    }
  }

  /** The next packet of a live flow, with what its program does not look at. */
  function PacketOf(s: State, k: ConnectionTuple): Event {
    Event.Packet(ProgramFor(s, k), k, [0, 0, 0, 0, 0, 0], None)
  }

  lemma HitOnChain(s: State, chain: seq<ConnectionTuple>, k: ConnectionTuple, at: Instant)
    requires Sane(s) && chain != [] && Leads(s, chain, k) && !s.table[chain[0]].seenReply && k in s.table
    requires at == Max(s.now, s.table[chain[0]].timeout + THRESHOLD_NS - TIMEOUT_NEW + 1)
    ensures var s' := Step(s, PacketOf(s, chain[0]), at);
            && Allowed(Unclashed, s, PacketOf(s, chain[0]), at) && SameFlows(s, s')
            && Leads(s', chain[1..], k)
            && var r := Twin(s, chain[0]);
               r in s'.table && !s'.table[r].seenReply && s'.table[r].timeout == at + TIMEOUT_NEW
  {
    var e, r := PacketOf(s, chain[0]), Twin(s, chain[0]);
    assert SeparatedAt(s, chain[0]);
    assert r == First(chain[1..], k);
    TwinDiffers(s, chain[0]);
    HitKeepsTwins(s, e, at);
    TouchedFrame(s.table, chain[0], r, at);
    ChainCarriesOver(Step(s, e, at), s, chain[1..], k);
  }

  /** A run with no removals at all that hits the entries of the chain in turn, and then sweeps. */
  lemma {:induction false} HitsAndSweep(s: State, tr: Trace, chain: seq<ConnectionTuple>, k: ConnectionTuple, limit: int)
    returns (lost: Trace)
    requires Interleaved(s, tr, limit) && NeverRemoves(tr, k) && limit <= CLOCK_END
    requires Sane(Run(s, tr)) && k in Run(s, tr).table && Undermines(Run(s, tr), chain, k, limit)
    ensures Interleaved(s, lost, limit) && NeverRemoves(lost, k) && k !in Run(s, lost).table
    decreases |chain|
  {
    var s0 := Run(s, tr);
    var at: Instant := Max(s0.now, s0.table[chain[0]].timeout + THRESHOLD_NS - TIMEOUT_NEW + 1);
    var hit := Then(tr, PacketOf(s0, chain[0]), at);
    HitOnChain(s0, chain, k, at);
    StepStaysSane(s0, PacketOf(s0, chain[0]), at);
    if |chain| == 1 {
      lost := Then(hit, Sweep, at + TIMEOUT_NEW);
    } else {
      lost := HitsAndSweep(s, hit, chain[1..], k, limit);
    }
  }

  /** An entry that is not secure is lost in a run without removals. */
  lemma InsecureIsLost(s: State, k: ConnectionTuple, limit: int) returns (lost: Trace)
    requires Sane(s) && k in s.table && !Secure(s, k, limit) && s.now < limit <= CLOCK_END
    ensures Interleaved(s, lost, limit) && NeverRemoves(lost, k) && k !in Run(s, lost).table
  {
    assert Run(s, Start) == s;
    if s.table[k].timeout < limit {
      lost := Then(Start, Sweep, Max(s.now, s.table[k].timeout));
    } else {
      var chain :| Undermines(s, chain, k, limit);
      lost := HitsAndSweep(s, Start, chain, k, limit);
    }
  }

  /**
   * Retention, on every state that an orderly run keeps: an entry stays in the table exactly as long as it is not
   * itself removed singly, in all runs without clashes whose sweeps read the clock before `limit`, if and only if
   * it is to live that long and no chain undermines it.
   */
  lemma RetainedIffSecure(s: State, k: ConnectionTuple, limit: int)
    requires Sane(s) && k in s.table && s.now < limit <= s.now + TIMEOUT_EST && limit <= CLOCK_END
    ensures (forall tr :: Legal(Unclashed, s, tr) && SweepsBefore(tr, limit) ==>
               (AliveThroughout(s, tr, k) <==> NeverRemoves(tr, k)))
            <==> Secure(s, k, limit)
  {
    if Secure(s, k, limit) {
      forall tr | Legal(Unclashed, s, tr) && SweepsBefore(tr, limit)
        ensures AliveThroughout(s, tr, k) <==> NeverRemoves(tr, k)
      {
        SecureStays(s, tr, k, limit);
      }
    } else {
      var lost := InsecureIsLost(s, k, limit);
      assert !AliveThroughout(s, lost, k);
    }
  }

  /** A pending entry is lost in the run that goes on to remove it. */
  lemma PendingIsLost(s: State, k: ConnectionTuple, limit: int)
    requires k in s.pending && k in s.table
    ensures var tr := Then(Start, Remove(k), s.now);
            Interleaved(s, tr, limit) && !AliveThroughout(s, tr, k)
  {
    assert Run(s, Start) == s;
  }

  /** And when sweeps remove only what they have collected, it survives all such runs if moreover it is not pending. */
  lemma SurvivesIffSecure(s: State, k: ConnectionTuple, limit: int)
    requires Sane(s) && k in s.table && s.now < limit <= s.now + TIMEOUT_EST && limit <= CLOCK_END
    ensures (forall tr :: Interleaved(s, tr, limit) ==> AliveThroughout(s, tr, k))
            <==> k !in s.pending && Secure(s, k, limit)
  {
    if k in s.pending {
      PendingIsLost(s, k, limit);
    } else if Secure(s, k, limit) {
      forall tr | Interleaved(s, tr, limit)
        ensures AliveThroughout(s, tr, k)
      {
        SecureIsNotCollected(s, tr, k, limit);
        SecureStays(s, tr, k, limit);
      }
    } else {
      var lost := InsecureIsLost(s, k, limit);
      assert !AliveThroughout(s, lost, k);
    }
  }

  /** A packet's promise: the lifetime of its flow less one second from the packet on, or the end of the clock. */
  function KeptUntil(s: State, e: Event, at: Instant): int
    requires e.Packet? && e.key in Step(s, e, at).table
  {
    var promised := at + Lifetime(Step(s, e, at).table[e.key]) - THRESHOLD_NS;
    if promised < CLOCK_END then promised else CLOCK_END
  }

  /**
   * The entry that a packet hits or opens is retained as promised if and only if no chain undermines it, and it
   * survives interrupted sweeps if and only if moreover no sweep had collected its key when the packet came.
   */
  lemma FlowIsRetainedIff(s: State, e: Event, at: Instant)
    requires Sane(s) && Allowed(Unclashed, s, e, at) && e.Packet? && e.key in Step(s, e, at).table
    ensures var s1, limit := Step(s, e, at), KeptUntil(s, e, at);
            && ((forall tr :: Legal(Unclashed, s1, tr) && SweepsBefore(tr, limit) ==>
                   (AliveThroughout(s1, tr, e.key) <==> NeverRemoves(tr, e.key)))
                <==> !Undermined(s1, e.key, limit))
            && ((forall tr :: Interleaved(s1, tr, limit) ==> AliveThroughout(s1, tr, e.key))
                <==> e.key !in s.pending && !Undermined(s1, e.key, limit))
  {
    StepStaysSane(s, e, at);
    PacketSetsDeadline(s, e, at);
    RetainedIffSecure(Step(s, e, at), e.key, KeptUntil(s, e, at));
    SurvivesIffSecure(Step(s, e, at), e.key, KeptUntil(s, e, at));
  }

  /** Among whole flows a chain has one entry only, since the reverse of an original entry is none; and it agrees. */
  lemma PairedChainAgrees(s: State, chain: seq<ConnectionTuple>, k: ConnectionTuple)
    requires Paired(s) && chain != [] && Leads(s, chain, k)
    ensures k in s.table && s.table[chain[0]].seenReply == s.table[k].seenReply
    ensures s.table[chain[0]].timeout == s.table[k].timeout
  {
    assert PairedAt(s, chain[0]) && Leads(s, chain[1..], k);
  }

  /** So there nothing is undermined. */
  lemma PairedIsSecure(s: State, k: ConnectionTuple, limit: int)
    requires Paired(s) && Bounded(s.table, s.now) && k in s.table && limit <= s.table[k].timeout
    ensures Secure(s, k, limit)
  {
    forall chain | chain != [] && Leads(s, chain, k) && !s.table[chain[0]].seenReply
      ensures limit <= LowersTo(s, chain)
    {
      PairedChainAgrees(s, chain, k);
    }
  }

  /**
   * So from a state of whole flows, both entries of the flow are retained as promised, each exactly as long as it
   * is not itself removed singly, and each survives interrupted sweeps if and only if it was not pending.
   */
  lemma WholeFlowIsRetained(s: State, e: Event, at: Instant, k: ConnectionTuple)
    requires Sound(s) && Allowed(Unclashed, s, e, at) && e.Packet? && e.key in Step(s, e, at).table
    requires k == e.key || k == Twin(Step(s, e, at), e.key)
    ensures var s1, limit := Step(s, e, at), KeptUntil(s, e, at);
            && (forall tr :: Legal(Unclashed, s1, tr) && SweepsBefore(tr, limit) ==>
                  (AliveThroughout(s1, tr, k) <==> NeverRemoves(tr, k)))
            && ((forall tr :: Interleaved(s1, tr, limit) ==> AliveThroughout(s1, tr, k)) <==> k !in s.pending)
  {
    var s1, limit := Step(s, e, at), KeptUntil(s, e, at);
    StepStaysSound(s, e, at);
    PacketSetsDeadline(s, e, at);
    assert PairedAt(s1, e.key);
    PairedIsSecure(s1, k, limit);
    RetainedIffSecure(s1, k, limit);
    SurvivesIffSecure(s1, k, limit);
  }
}
