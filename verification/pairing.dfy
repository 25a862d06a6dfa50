/** The two entries of a flow: each is the other's reverse, and their mutable fields agree. */
module Pairing {
  import opened Common
  import opened Conntrack
  import opened System
  import opened Unconditional

  /** The key that the program for `k` computes for the reverse of its entry. */
  function Twin(s: State, k: ConnectionTuple): ConnectionTuple
    requires k in s.table
  {
    ReverseKey(ProgramFor(s, k), k, s.table[k].xlat)
  }

  predicate PairedAt(s: State, k: ConnectionTuple)
    requires k in s.table
  {
    var r := Twin(s, k);
    && r in s.table
    && ProgramFor(s, r) != ProgramFor(s, k)
    && Twin(s, r) == k
    && s.table[r].direction != s.table[k].direction
    && s.table[r].seenReply == s.table[k].seenReply
    && s.table[r].timeout == s.table[k].timeout
  }

  predicate Paired(s: State) {
    forall k :: k in s.table ==> PairedAt(s, k)
  }

  lemma TouchedPairAgrees(t: Table, k: ConnectionTuple, r: ConnectionTuple, now: Instant)
    requires k in t && r in t && k != r && t[r].seenReply == t[k].seenReply && t[r].timeout == t[k].timeout
    ensures var t' := Touched(t, k, r, now);
            t'[r].seenReply == t'[k].seenReply && t'[r].timeout == t'[k].timeout
  {
  }

  /** If no key comes or goes and no translation changes, a flow that agrees in its mutable fields stays paired. */
  lemma PairSurvives(s: State, s': State, k: ConnectionTuple)
    requires Paired(s) && k in s.table && s'.table.Keys == s.table.Keys && s'.control.containers == s.control.containers
    requires forall j :: j in s.table ==>
               s'.table[j].xlat == s.table[j].xlat && s'.table[j].direction == s.table[j].direction
    requires var r := Twin(s, k); r in s.table ==>
               s'.table[r].seenReply == s'.table[k].seenReply && s'.table[r].timeout == s'.table[k].timeout
    ensures PairedAt(s', k) && Twin(s', k) == Twin(s, k)
  {
    assert PairedAt(s, k);
  }

  /** The same entries with the same twins. */
  ghost predicate SameFlows(s: State, s': State) {
    s'.table.Keys == s.table.Keys && forall k :: k in s.table ==> Twin(s', k) == Twin(s, k)
  }

  lemma HitKeepsKeys(s: State, e: Event, at: Instant)
    requires e.Packet? && e.key in s.table
    ensures Step(s, e, at).table.Keys == s.table.Keys
  {
  }

  /** A hit updates the pair and nothing else. */
  lemma HitKeepsPairs(s: State, e: Event, at: Instant)
    requires Paired(s) && e.Packet? && Sited(s, e) && e.key in s.table
    ensures Paired(Step(s, e, at)) && SameFlows(s, Step(s, e, at))
    ensures forall k :: k in s.table && k != e.key && k != Twin(s, e.key) ==>
              k in Step(s, e, at).table && Step(s, e, at).table[k] == s.table[k]
  {
    var s', r := Step(s, e, at), Twin(s, e.key);
    assert PairedAt(s, e.key);
    TouchedFrame(s.table, e.key, r, at);
    TouchedPairAgrees(s.table, e.key, r, at);
    forall k | k in s.table
      ensures PairedAt(s', k) && Twin(s', k) == Twin(s, k)
    {
      assert PairedAt(s, k);
      PairSurvives(s, s', k);
    }
  }

  /** Both entries of a fresh flow that finds its two keys free and room for both. */
  lemma OpeningMakesAPair(s: State, e: Event, at: Instant)
    requires Paired(s) && KnownExposures(s.control) && e.Packet? && Sited(s, e)
    requires e.key !in s.table && Opens(s, e).Some? && !Clashes(s, e) && |s.table| + 2 <= CONNTRACK_MAX
    ensures var s', r := Step(s, e, at), ReverseKey(e.flag, e.key, Opens(s, e).value.forward);
            && Paired(s') && s'.table.Keys == s.table.Keys + {e.key, r} && r !in s.table && r != e.key
            && Twin(s', e.key) == r && s'.table[e.key].direction == Original
  {
    var s', o := Step(s, e, at), Opens(s, e).value;
    var r := ReverseKey(e.flag, e.key, o.forward);
    CreatedFrame(e.flag, s.table, e.key, o, at);
    assert ProgramFor(s, r) != e.flag;
    assert s'.table.Keys == s.table.Keys + {e.key, r};
    NewPairHolds(s, e, at);
    forall k | k in s.table
      ensures PairedAt(s', k)
    {
      PairCarriesOver(s, s', k);
    }
  }

  /** A pair both of whose entries are unchanged is still a pair. */
  lemma PairCarriesOver(s: State, s': State, k: ConnectionTuple)
    requires k in s.table && PairedAt(s, k) && s'.control.containers == s.control.containers
    requires k in s'.table && s'.table[k] == s.table[k]
    requires var r := Twin(s, k); r in s'.table && s'.table[r] == s.table[r]
    ensures PairedAt(s', k)
  {
  }

  lemma NewPairHolds(s: State, e: Event, at: Instant)
    requires KnownExposures(s.control) && e.Packet? && Sited(s, e)
    requires e.key !in s.table && Opens(s, e).Some? && !Clashes(s, e) && |s.table| + 2 <= CONNTRACK_MAX
    ensures var s', r := Step(s, e, at), ReverseKey(e.flag, e.key, Opens(s, e).value.forward);
            && e.key in s'.table && PairedAt(s', e.key) && Twin(s', e.key) == r && PairedAt(s', r)
            && s'.table[e.key].direction == Original
  {
    CreatedFrame(e.flag, s.table, e.key, Opens(s, e).value, at);
  }

  /** A sweep with one clock reading removes both entries of a flow or neither. */
  lemma SweepKeepsPairs(s: State, at: Instant)
    requires Paired(s)
    ensures Paired(Step(s, Sweep, at))
  {
    var s' := Step(s, Sweep, at);
    forall k | k in s'.table
      ensures PairedAt(s', k)
    {
      assert PairedAt(s, k);
    }
  }

  lemma {:induction false} ClosedUnderTwinIsEven(s: State, ks: set<ConnectionTuple>)
    requires Paired(s) && ks <= s.table.Keys && forall k :: k in ks ==> Twin(s, k) in ks
    ensures |ks| % 2 == 0
    decreases |ks|
  {
    if k :| k in ks {
      var r := Twin(s, k);
      assert PairedAt(s, k);
      var rest := ks - {k, r};
      assert ks == rest + {k, r};
      forall j | j in rest
        ensures Twin(s, j) in rest
      {
        assert PairedAt(s, j);
      }
      ClosedUnderTwinIsEven(s, rest);
    }
  }

  /** The entries come in twos, so their number is even. */
  lemma PairedTableIsEven(s: State)
    requires Paired(s)
    ensures |s.table| % 2 == 0
  {
    forall k | k in s.table.Keys
      ensures Twin(s, k) in s.table.Keys
    {
      assert PairedAt(s, k);
    }
    ClosedUnderTwinIsEven(s, s.table.Keys);
  }

  /**
   * A packet keeps the table paired exactly when it does not clash. Capacity is not a second condition: the
   * number of entries is even and so is the capacity, so there is never room for one half only.
   */
  lemma PacketKeepsPairsIff(s: State, e: Event, at: Instant)
    requires Paired(s) && KnownExposures(s.control) && e.Packet? && Sited(s, e)
    ensures Paired(Step(s, e, at)) <==> !Clashes(s, e)
  {
    var s' := Step(s, e, at);
    if e.key in s.table {
      HitKeepsPairs(s, e, at);
    } else if Opens(s, e).Some? {
      var o := Opens(s, e).value;
      var r := ReverseKey(e.flag, e.key, o.forward);
      PairedTableIsEven(s);
      if Clashes(s, e) {
        CreatedFrame(e.flag, s.table, e.key, o, at);
        assert e.key in s'.table && Twin(s', e.key) == r;
        assert PairedAt(s, r);
        assert Twin(s', r) == Twin(s, r) != e.key;
        assert !PairedAt(s', e.key);
      } else if |s.table| < CONNTRACK_MAX {
        OpeningMakesAPair(s, e, at);
      }
    }
  }

  /** Removing one entry alone always breaks its pair: why an interrupted sweep is not covered. */
  lemma RemovalBreaksPair(s: State, k: ConnectionTuple, at: Instant)
    requires Paired(s) && k in s.table
    ensures !Paired(Step(s, Remove(k), at))
  {
    var s' := Step(s, Remove(k), at);
    var r := Twin(s, k);
    assert PairedAt(s, k);
    assert r in s'.table && Twin(s', r) == k;
    assert !PairedAt(s', r);
  }

  /** The pairing invariant over every clean run. */
  lemma {:induction false} RunsStayPaired(s: State, tr: Trace)
    requires Paired(s) && Separated(s) && WellKeyed(s.control) && KnownExposures(s.control) && Legal(Clean, s, tr)
    ensures Paired(Run(s, tr))
  {
    if tr.Then? {
      RunsStayPaired(s, tr.before);
      LegalIsMonotone(Clean, s, tr.before);
      ProgramsStayApart(s, tr.before);
      StepStaysPaired(Run(s, tr.before), tr.last, tr.at);
    }
  }

  lemma StepStaysPaired(s: State, e: Event, at: Instant)
    requires Paired(s) && KnownExposures(s.control) && Allowed(Clean, s, e, at)
    ensures Paired(Step(s, e, at))
  {
    match e
    case Packet(_, _, _, _) => PacketKeepsPairsIff(s, e, at);
    case Sweep => SweepKeepsPairs(s, at);
    case Remove(_) =>
    case Collect(_) =>
      forall k | k in s.table
        ensures PairedAt(Step(s, e, at), k)
      {
        assert PairedAt(s, k);
      }
    case ControlCall(_) =>
      forall k | k in s.table
        ensures PairedAt(Step(s, e, at), k)
      {
        assert PairedAt(s, k);
      }
  }

  /** No two entries, of the same program or of both, share the tuple that their packets carry after translation. */
  lemma TranslationsAreDistinct(s: State, k1: ConnectionTuple, k2: ConnectionTuple)
    requires Paired(s) && k1 in s.table && k2 in s.table && k1 != k2
    ensures TranslatedTuple(ProgramFor(s, k1), k1, s.table[k1].xlat)
         != TranslatedTuple(ProgramFor(s, k2), k2, s.table[k2].xlat)
  {
    assert PairedAt(s, k1) && PairedAt(s, k2);
    assert Twin(s, k1) != Twin(s, k2);
  }

  /**
   * A packet that opens a flow finds its reverse key occupied exactly when a live flow of the same program
   * already leaves under the same translated tuple; that flow keeps the key and its target.
   */
  lemma OccupiedReverseKeyHasAnOwner(s: State, e: Event, at: Instant)
    requires Paired(s) && KnownExposures(s.control) && e.Packet? && Sited(s, e)
    requires e.key !in s.table && Opens(s, e).Some?
    ensures var x := Opens(s, e).value.forward;
            var r := ReverseKey(e.flag, e.key, x);
            && (r in s.table <==>
                  exists k :: k in s.table && ProgramFor(s, k) == e.flag
                    && TranslatedTuple(e.flag, k, s.table[k].xlat) == TranslatedTuple(e.flag, e.key, x))
            && (r in s.table ==> Step(s, e, at).table[r] == s.table[r] && Twin(s, r) in s.table && Twin(s, r) != e.key)
  {
    var x := Opens(s, e).value.forward;
    var r := ReverseKey(e.flag, e.key, x);
    if r in s.table {
      var k := Twin(s, r);
      assert PairedAt(s, r) && PairedAt(s, k);
      assert Twin(s, k) == r && ProgramFor(s, k) == e.flag;
      assert TranslatedTuple(e.flag, k, s.table[k].xlat) == TranslatedTuple(e.flag, e.key, x);
      CreatedFrame(e.flag, s.table, e.key, Opens(s, e).value, at);
    }
    if k :| k in s.table && ProgramFor(s, k) == e.flag
            && TranslatedTuple(e.flag, k, s.table[k].xlat) == TranslatedTuple(e.flag, e.key, x) {
      assert PairedAt(s, k);
      assert Twin(s, k) == r;
    }
  }
}
