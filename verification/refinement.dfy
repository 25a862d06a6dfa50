/** The lazy table refines an eager one, which rewrites the timeout on every packet. */
module Refinement {
  import opened Common
  import opened Conntrack
  import opened System
  import opened Pairing
  import opened Timing

  function EagerStep(s: State, e: Event, at: Instant): State {
    if e.Packet? && e.key in s.table then
      var r := ReverseKey(e.flag, e.key, s.table[e.key].xlat);
      s.(table := RefreshedPair(s.table, e.key, r, at), now := at)
    else
      Step(s, e, at)
  }

  function EagerRun(s: State, tr: Trace): State {
    match tr
    case Start => s
    case Then(before, last, at) => EagerStep(EagerRun(s, before), last, at)
  }

  /** The lazy entry differs in its timeout only, which is at most one threshold behind and never ahead. */
  predicate Lags(lazy: FlowState, eager: FlowState) {
    && lazy.xlat == eager.xlat && lazy.direction == eager.direction && lazy.seenReply == eager.seenReply
    && eager.timeout - THRESHOLD_NS <= lazy.timeout <= eager.timeout
  }

  predicate Refines(lazy: State, eager: State) {
    && lazy.table.Keys == eager.table.Keys
    && (forall k :: k in lazy.table ==> Lags(lazy.table[k], eager.table[k]))
    && lazy.control == eager.control && lazy.pnic == eager.pnic && lazy.now == eager.now
  }

  predicate NoSweep(tr: Trace) {
    tr.Then? ==> NoSweep(tr.before) && !tr.last.Sweep?
  }

  /** Skipping an update loses at most one threshold. */
  lemma EntryLags(f: FlowState, g: FlowState, at: Instant)
    requires Lags(f, g) && f.timeout <= at + Lifetime(f)
    ensures Lags(if NeedsRefresh(f, at) then Refreshed(f, at) else f, Refreshed(g, at))
  {
  }

  lemma HitLags(s: State, eager: State, e: Event, at: Instant, k: ConnectionTuple)
    requires Sound(s) && Allowed(Clean, s, e, at) && Refines(s, eager)
    requires e.Packet? && e.key in s.table && k in s.table
    ensures k in Step(s, e, at).table && k in EagerStep(eager, e, at).table
    ensures Lags(Step(s, e, at).table[k], EagerStep(eager, e, at).table[k])
  {
    var r := Twin(s, e.key);
    assert PairedAt(s, e.key);
    assert Lags(s.table[k], eager.table[k]) && Lags(s.table[e.key], eager.table[e.key]);
    EntryLags(s.table[e.key], eager.table[e.key], at);
    TablesLag(s.table, eager.table, e.key, r, at, k);
  }

  /** The entry that is hit, its reverse, and any other. */
  lemma TablesLag(t: Table, t': Table, key: ConnectionTuple, r: ConnectionTuple, at: Instant, k: ConnectionTuple)
    requires t.Keys == t'.Keys && key in t && r in t && k in t && r != key
    requires Lags(t[k], t'[k])
    requires t[r].timeout == t[key].timeout && t[r].seenReply == t[key].seenReply
    requires Lags(if NeedsRefresh(t[key], at) then Refreshed(t[key], at) else t[key], Refreshed(t'[key], at))
    ensures k in Touched(t, key, r, at) && k in RefreshedPair(t', key, r, at)
    ensures Lags(Touched(t, key, r, at)[k], RefreshedPair(t', key, r, at)[k])
  {
  }

  lemma HitRefines(s: State, eager: State, e: Event, at: Instant)
    requires Sound(s) && Allowed(Clean, s, e, at) && Refines(s, eager) && e.Packet? && e.key in s.table
    ensures Refines(Step(s, e, at), EagerStep(eager, e, at))
  {
    var s', eager' := Step(s, e, at), EagerStep(eager, e, at);
    assert s'.table.Keys == s.table.Keys by { HitKeepsPairs(s, e, at); }
    assert eager'.table.Keys == eager.table.Keys;
    forall k | k in s'.table
      ensures Lags(s'.table[k], eager'.table[k])
    {
      HitLags(s, eager, e, at, k);
    }
  }

  lemma StepRefines(s: State, eager: State, e: Event, at: Instant)
    requires Sound(s) && Allowed(Clean, s, e, at) && Refines(s, eager) && !e.Sweep?
    ensures Refines(Step(s, e, at), EagerStep(eager, e, at))
  {
    if e.Packet? {
      if e.key in s.table {
        HitRefines(s, eager, e, at);
      } else if Opens(s, e).Some? {
        OpeningRefines(s, eager, e, at);
      }
    }
  }

  lemma OpeningRefines(s: State, eager: State, e: Event, at: Instant)
    requires Refines(s, eager) && e.Packet? && e.key !in s.table && Opens(s, e).Some?
    ensures Refines(Step(s, e, at), EagerStep(eager, e, at))
  {
    assert |s.table.Keys| == |eager.table.Keys|;
    var o := Opens(s, e).value;
    assert Opens(eager, e) == Some(o);
    InsertRefines(s.table, eager.table, e.key, NewFlow(o.forward, Original, at + TIMEOUT_NEW));
    var t1 := InsertNoExist(s.table, e.key, NewFlow(o.forward, Original, at + TIMEOUT_NEW));
    var t2 := InsertNoExist(eager.table, e.key, NewFlow(o.forward, Original, at + TIMEOUT_NEW));
    InsertRefines(t1, t2, ReverseKey(e.flag, e.key, o.forward), NewFlow(o.backward, Reply, at + TIMEOUT_NEW));
  }

  lemma InsertRefines(t1: Table, t2: Table, k: ConnectionTuple, f: FlowState)
    requires t1.Keys == t2.Keys && forall j :: j in t1 ==> Lags(t1[j], t2[j])
    ensures var t1', t2' := InsertNoExist(t1, k, f), InsertNoExist(t2, k, f);
            t1'.Keys == t2'.Keys && forall j :: j in t1' ==> Lags(t1'[j], t2'[j])
  {
    assert |t1| == |t1.Keys| == |t2.Keys| == |t2|;
  }

  /** Between sweeps, the lazy run refines the eager run on any sequence of packets and calls. */
  lemma {:induction false} LazyRefinesEager(s: State, tr: Trace)
    requires Sound(s) && Legal(Clean, s, tr) && NoSweep(tr)
    ensures Refines(Run(s, tr), EagerRun(s, tr))
  {
    if tr.Then? {
      LazyRefinesEager(s, tr.before);
      RunsStaySound(s, tr.before);
      StepRefines(Run(s, tr.before), EagerRun(s, tr.before), tr.last, tr.at);
    }
  }

  /** So both runs translate every packet alike. */
  lemma LazyTranslatesLikeEager(s: State, tr: Trace, e: Event)
    requires Sound(s) && Legal(Clean, s, tr) && NoSweep(tr) && e.Packet?
    ensures var lazy, eager := Run(s, tr), EagerRun(s, tr);
            TranslationOf(lazy.table, e.key, Opens(lazy, e)) == TranslationOf(eager.table, e.key, Opens(eager, e))
  {
    LazyRefinesEager(s, tr);
  }
}
