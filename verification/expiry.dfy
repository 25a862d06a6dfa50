/** How an idle entry goes when sweeps visit and remove entries one by one, in runs of any kind. */
module Expiry {
  import opened Common
  import opened Conntrack
  import opened System
  import opened Unconditional
  import opened Timing
  import opened Ticks

  /** The packet hits the entry at `k`, directly or as the reverse of the entry that it hits. */
  predicate Touches(s: State, e: Event, k: ConnectionTuple) {
    e.Packet? && e.key in s.table && (e.key == k || ReverseKey(e.flag, e.key, s.table[e.key].xlat) == k)
  }

  /** No packet of the run hits the entry at `k`. */
  predicate Untouched(s: State, tr: Trace, k: ConnectionTuple) {
    tr.Then? ==> Untouched(s, tr.before, k) && !Touches(Run(s, tr.before), tr.last, k)
  }

  lemma UntouchedStep(s: State, e: Event, at: Instant, k: ConnectionTuple)
    requires k in s.table && k in Step(s, e, at).table && !Touches(s, e, k)
    ensures Step(s, e, at).table[k] == s.table[k]
  {
    if e.Packet? {
      if e.key in s.table {
        TouchedFrame(s.table, e.key, ReverseKey(e.flag, e.key, s.table[e.key].xlat), at);
      } else if Opens(s, e).Some? {
        CreatedFrame(e.flag, s.table, e.key, Opens(s, e).value, at);
      }
    }
  }

  lemma {:induction false} UntouchedIsUnchanged(s: State, tr: Trace, k: ConnectionTuple)
    requires AliveThroughout(s, tr, k) && Untouched(s, tr, k)
    ensures k in s.table && Run(s, tr).table[k] == s.table[k]
  {
    if tr.Then? {
      UntouchedIsUnchanged(s, tr.before, k);
      UntouchedStep(Run(s, tr.before), tr.last, tr.at, k);
    }
  }

  /** What a sweep has collected stays collected until it is removed. */
  lemma {:induction false} PendingStays(s: State, tr: Trace, k: ConnectionTuple)
    requires k in s.pending && NeverRemoves(tr, k)
    ensures k in Run(s, tr).pending
  {
    if tr.Then? {
      PendingStays(s, tr.before, k);
    }
  }

  /**
   * Expiry, entry by entry: let a packet hit or open an entry at `at`, and let no packet touch it until a sweep
   * visits it. Through clashes, single removals and packets of any kind, the visit collects it if and only if it
   * comes at or after the timeout, which is within one second of a full lifetime from `at`. Once collected it is
   * still due for removal after anything that follows, and the removal takes it away.
   */
  lemma IdleEntryExpires(s: State, e: Event, at: Instant, tr: Trace, visitAt: Instant, later: Trace, removeAt: Instant)
    requires Bounded(s.table, s.now) && s.now <= at && e.Packet? && e.key in Step(s, e, at).table
    requires AliveThroughout(Step(s, e, at), tr, e.key) && Untouched(Step(s, e, at), tr, e.key)
    requires NeverRemoves(later, e.key)
    ensures var s1 := Step(s, e, at);
            var lifetime, deadline := Lifetime(s1.table[e.key]), s1.table[e.key].timeout;
            var s2 := Step(Run(s1, tr), Collect(e.key), visitAt);
            var s3 := Run(s2, later);
            && at + lifetime - THRESHOLD_NS <= deadline <= at + lifetime
            && (e.key in s2.pending <==> deadline <= visitAt || e.key in Run(s1, tr).pending)
            && (at + lifetime <= visitAt ==> e.key in s3.pending)
            && e.key !in Step(s3, Remove(e.key), removeAt).table
  {
    var s1 := Step(s, e, at);
    PacketSetsDeadline(s, e, at);
    UntouchedIsUnchanged(s1, tr, e.key);
    var s2 := Step(Run(s1, tr), Collect(e.key), visitAt);
    if e.key in s2.pending {
      PendingStays(s2, later, e.key);
    }
  }

  /** So a tick that reads the clock at every entry takes an untouched entry away exactly if it is due at its turn. */
  lemma TickTakesIdleEntryIff(s: State, tr: Trace, order: seq<ConnectionTuple>, clock: seq<Instant>, i: nat)
    requires |order| == |clock| && i < |order| && Distinct(order)
    requires AliveThroughout(s, tr, order[i]) && Untouched(s, tr, order[i])
    ensures order[i] in s.table
    ensures var end := Run(s, tr);
            order[i] !in Run(end, Tick(end, order, clock)).table <==> s.table[order[i]].timeout <= clock[i]
  {
    var end := Run(s, tr);
    UntouchedIsUnchanged(s, tr, order[i]);
    CollectedAt(end.table, order, clock, i);
    VisitsCollect(end, order, clock);
    RemovalsRemove(end, Visits(order, clock), Collected(end.table, order, clock));
  }
}
