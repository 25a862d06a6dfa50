/** Timeouts over runs of a paired table: retention, expiry, and the history that `seen_reply` records. */
module Timing {
  import opened Common
  import opened Conntrack
  import opened System
  import opened Unconditional
  import opened Pairing

  /** A state that a clean run can start from, and that it preserves. */
  predicate Sound(s: State) {
    Paired(s) && Bounded(s.table, s.now) && Separated(s) && WellKeyed(s.control) && KnownExposures(s.control)
  }

  lemma StepStaysSound(s: State, e: Event, at: Instant)
    requires Sound(s) && Allowed(Clean, s, e, at)
    ensures Sound(Step(s, e, at))
  {
    StepStaysPaired(s, e, at);
    StepKeepsBound(s, e, at);
    StepKeepsSeparation(s, e, at);
  }

  /** The invariants hold together over every clean run, in particular over every one from start-up. */
  lemma {:induction false} RunsStaySound(s: State, tr: Trace)
    requires Sound(s) && Legal(Clean, s, tr)
    ensures Sound(Run(s, tr))
  {
    if tr.Then? {
      RunsStaySound(s, tr.before);
      StepStaysSound(Run(s, tr.before), tr.last, tr.at);
    }
  }

  /** How long an entry is kept after a packet. */
  function Lifetime(f: FlowState): int {
    if f.seenReply then TIMEOUT_EST else TIMEOUT_NEW
  }

  /** A packet that hits or opens a flow leaves its deadline within one threshold of a full lifetime from now. */
  lemma PacketSetsDeadline(s: State, e: Event, at: Instant)
    requires Bounded(s.table, s.now) && s.now <= at && e.Packet? && e.key in Step(s, e, at).table
    ensures var f := Step(s, e, at).table[e.key];
            at + Lifetime(f) - THRESHOLD_NS <= f.timeout <= at + Lifetime(f)
  {
    StepKeepsBound(s, e, at);
    if e.key !in s.table && Opens(s, e).Some? {
      CreatedFrame(e.flag, s.table, e.key, Opens(s, e).value, at);
    }
  }

  lemma HitNeverLowers(s: State, e: Event, at: Instant, k: ConnectionTuple)
    requires Sound(s) && Allowed(Clean, s, e, at) && e.Packet? && e.key in s.table && k in s.table
    ensures k in Step(s, e, at).table
    ensures s.table[k].timeout <= Step(s, e, at).table[k].timeout
    ensures s.table[k].seenReply ==> Step(s, e, at).table[k].seenReply
  {
    var s' := Step(s, e, at);
    HitKeepsPairs(s, e, at);
    assert PairedAt(s, e.key) && PairedAt(s', e.key);
    assert s.table[e.key].timeout <= s'.table[e.key].timeout;
  }

  /** While a flow lives, neither its timeout nor its reply flag ever goes down, and its two keys are the same. */
  lemma StepNeverLowers(s: State, e: Event, at: Instant, k: ConnectionTuple)
    requires Sound(s) && Allowed(Clean, s, e, at)
    requires k in s.table && k in Step(s, e, at).table
    ensures s.table[k].timeout <= Step(s, e, at).table[k].timeout
    ensures s.table[k].seenReply ==> Step(s, e, at).table[k].seenReply
    ensures Twin(Step(s, e, at), k) == Twin(s, k)
  {
    StepIsSticky(s, e, at, k);
    if e.Packet? {
      if e.key in s.table {
        HitNeverLowers(s, e, at, k);
      } else if Opens(s, e).Some? {
        CreatedFrame(e.flag, s.table, e.key, Opens(s, e).value, at);
      }
    }
  }

  /** Over a clean run, the timeout and the reply flag of a flow that stays alive never go down. */
  lemma {:induction false} NothingIsLowered(s: State, tr: Trace, k: ConnectionTuple)
    requires Sound(s) && Legal(Clean, s, tr) && AliveThroughout(s, tr, k)
    ensures k in s.table && s.table[k].timeout <= Run(s, tr).table[k].timeout
    ensures s.table[k].seenReply ==> Run(s, tr).table[k].seenReply
    ensures Twin(Run(s, tr), k) == Twin(s, k)
  {
    if tr.Then? {
      NothingIsLowered(s, tr.before, k);
      RunsStaySound(s, tr.before);
      StepNeverLowers(Run(s, tr.before), tr.last, tr.at, k);
    }
  }

  /** No packet of the run belongs to the flow of `k` and `r`. */
  predicate Idle(tr: Trace, k: ConnectionTuple, r: ConnectionTuple) {
    tr.Then? ==> Idle(tr.before, k, r) && (tr.last.Packet? ==> tr.last.key != k && tr.last.key != r)
  }

  lemma {:induction false} IdleFlowIsUnchanged(s: State, tr: Trace, k: ConnectionTuple)
    requires Sound(s) && Legal(Clean, s, tr) && AliveThroughout(s, tr, k)
    requires k in s.table && Idle(tr, k, Twin(s, k))
    ensures Run(s, tr).table[k] == s.table[k]
  {
    if tr.Then? {
      IdleFlowIsUnchanged(s, tr.before, k);
      RunsStaySound(s, tr.before);
      RunKeepsTheSite(s, tr.before);
      var s', e := Run(s, tr.before), tr.last;
      assert Twin(s', k) == Twin(s, k);
      if e.Packet? {
        if e.key in s'.table {
          HitKeepsPairs(s', e, tr.at);
          assert PairedAt(s', k) && PairedAt(s', e.key);
          assert k != Twin(s', e.key);
        } else if Opens(s', e).Some? {
          CreatedFrame(e.flag, s'.table, e.key, Opens(s', e).value, tr.at);
        }
      }
    }
  }

  /** A sweep removes an expired flow altogether. */
  lemma SweepTakesBoth(s: State, k: ConnectionTuple, sweepAt: Instant)
    requires Paired(s) && k in s.table && s.table[k].timeout <= sweepAt
    ensures k !in Step(s, Sweep, sweepAt).table && Twin(s, k) !in Step(s, Sweep, sweepAt).table
  {
    assert PairedAt(s, k);
  }

  /** Expiry: a flow hit or opened at `at` and then left idle does not survive a sweep at or after its lifetime. */
  lemma IdleFlowExpires(s: State, e: Event, at: Instant, tr: Trace, sweepAt: Instant)
    requires Sound(s) && Allowed(Clean, s, e, at) && e.Packet?
    requires var s1 := Step(s, e, at);
             && e.key in s1.table
             && Legal(Clean, s1, Then(tr, Sweep, sweepAt))
             && AliveThroughout(s1, tr, e.key) && Idle(tr, e.key, Twin(s1, e.key))
             && at + Lifetime(s1.table[e.key]) <= sweepAt
    ensures var s1 := Step(s, e, at);
            var end := Run(s1, Then(tr, Sweep, sweepAt));
            e.key !in end.table && Twin(s1, e.key) !in end.table
  {
    var s1 := Step(s, e, at);
    StepStaysSound(s, e, at);
    PacketSetsDeadline(s, e, at);
    IdleFlowIsUnchanged(s1, tr, e.key);
    RunsStaySound(s1, tr);
    RunKeepsTheSite(s1, tr);
    var s2 := Run(s1, tr);
    assert Twin(s2, e.key) == Twin(s1, e.key);
    SweepTakesBoth(s2, e.key, sweepAt);
  }

  /** The packet hits the flow of `k` through its reply entry. */
  predicate IsReplyTo(s: State, e: Event, k: ConnectionTuple)
    requires k in s.table
  {
    && e.Packet? && e.key in s.table && s.table[e.key].direction.Reply?
    && (e.key == k || e.key == Twin(s, k))
  }

  /** The history of the run: the flow of `k` has had a reply since it was opened. */
  predicate Replied(s: State, tr: Trace, k: ConnectionTuple) {
    match tr
    case Start => k in s.table && s.table[k].seenReply
    case Then(before, last, _) =>
      var s' := Run(s, before);
      && k in s'.table && k in Run(s, tr).table
      && (Replied(s, before, k) || IsReplyTo(s', last, k))
  }

  /** A hit records a reply on the pair if it came through the reply entry, and changes no other flow. */
  lemma HitRecordsReply(s: State, e: Event, at: Instant, k: ConnectionTuple)
    requires Sound(s) && Allowed(Clean, s, e, at) && e.Packet? && e.key in s.table && k in s.table
    ensures k in Step(s, e, at).table
    ensures Step(s, e, at).table[k].seenReply <==> s.table[k].seenReply || IsReplyTo(s, e, k)
  {
    var s', r := Step(s, e, at), Twin(s, e.key);
    HitKeepsPairs(s, e, at);
    assert PairedAt(s, e.key) && PairedAt(s', e.key);
    assert s'.table[e.key].seenReply <==> s.table[e.key].seenReply || s.table[e.key].direction.Reply?;
    if k != e.key && k != r {
      assert PairedAt(s, k);
    }
  }

  lemma NewFlowsHaveNoReply(s: State, e: Event, at: Instant, k: ConnectionTuple)
    requires e.Packet? && e.key !in s.table && Opens(s, e).Some? && k in Step(s, e, at).table
    ensures Step(s, e, at).table[k].seenReply <==> k in s.table && s.table[k].seenReply
  {
    CreatedFrame(e.flag, s.table, e.key, Opens(s, e).value, at);
  }

  lemma StepRecordsReply(s: State, e: Event, at: Instant, k: ConnectionTuple)
    requires Sound(s) && Allowed(Clean, s, e, at) && k in Step(s, e, at).table
    ensures Step(s, e, at).table[k].seenReply <==> k in s.table && (s.table[k].seenReply || IsReplyTo(s, e, k))
  {
    if e.Packet? {
      if e.key in s.table {
        HitKeepsKeys(s, e, at);
        HitRecordsReply(s, e, at, k);
      } else if Opens(s, e).Some? {
        NewFlowsHaveNoReply(s, e, at, k);
      }
    }
  }

  /** `seen_reply` is set on a flow exactly when a packet has hit its reply entry since it was opened. */
  lemma {:induction false} SeenReplyIsHistory(s: State, tr: Trace, k: ConnectionTuple)
    requires Sound(s) && Legal(Clean, s, tr) && k in Run(s, tr).table
    ensures Run(s, tr).table[k].seenReply <==> Replied(s, tr, k)
  {
    if tr.Then? {
      RunsStaySound(s, tr.before);
      StepRecordsReply(Run(s, tr.before), tr.last, tr.at, k);
      if k in Run(s, tr.before).table {
        SeenReplyIsHistory(s, tr.before, k);
      }
    }
  }
}
