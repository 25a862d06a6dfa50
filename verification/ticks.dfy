/** One tick of the sweeper, entry by entry, with a clock reading for each. */
module Ticks {
  import opened Common
  import opened Conntrack
  import opened System
  import opened Pairing

  /** The clock does not go back from `now` on. */
  predicate Ascending(now: Instant, clock: seq<Instant>) {
    && (forall i :: 0 <= i < |clock| ==> now <= clock[i])
    && (forall i, j :: 0 <= i < j < |clock| ==> clock[i] <= clock[j])
  }

  function LastReading(now: Instant, clock: seq<Instant>): Instant {
    if clock == [] then now else clock[|clock| - 1]
  }

  /** The visits of a tick. */
  function Visits(order: seq<ConnectionTuple>, clock: seq<Instant>): Trace
    requires |order| == |clock|
  {
    if order == [] then Start
    else
      var n := |order| - 1;
      Then(Visits(order[..n], clock[..n]), Collect(order[n]), clock[n])
  }

  /** The removals of a tick. */
  function Removals(before: Trace, ks: seq<ConnectionTuple>, at: Instant): Trace {
    if ks == [] then before else Then(Removals(before, ks[..|ks| - 1], at), Remove(ks[|ks| - 1]), at)
  }

  /** The whole tick: all entries are visited, and then the collected keys are removed. */
  function Tick(s: State, order: seq<ConnectionTuple>, clock: seq<Instant>): Trace
    requires |order| == |clock|
  {
    Removals(Visits(order, clock), Collected(s.table, order, clock), LastReading(s.now, clock))
  }

  function KeySet(ks: seq<ConnectionTuple>): set<ConnectionTuple> {
    set k | k in ks
  }

  lemma {:induction false} VisitsCollect(s: State, order: seq<ConnectionTuple>, clock: seq<Instant>)
    requires |order| == |clock|
    ensures Run(s, Visits(order, clock))
         == s.(pending := s.pending + KeySet(Collected(s.table, order, clock)), now := LastReading(s.now, clock))
  {
    if order == [] {
      assert s.pending + KeySet([]) == s.pending;
    } else {
      var n := |order| - 1;
      VisitsCollect(s, order[..n], clock[..n]);
      OneMoreKey(Collected(s.table, order[..n], clock[..n]), order[n]);
    }
  }

  lemma {:induction false} VisitsAreLegal(s: State, order: seq<ConnectionTuple>, clock: seq<Instant>)
    requires |order| == |clock| && Ascending(s.now, clock)
    ensures Legal(Clean, s, Visits(order, clock)) && DrawsFromPending(s, Visits(order, clock))
  {
    if order != [] {
      var n := |order| - 1;
      VisitsAreLegal(s, order[..n], clock[..n]);
      VisitsCollect(s, order[..n], clock[..n]);
      assert LastReading(s.now, clock[..n]) <= clock[n];
    }
  }

  lemma OneMoreKey(ks: seq<ConnectionTuple>, k: ConnectionTuple)
    ensures KeySet(ks + [k]) == KeySet(ks) + {k}
  {
  }

  lemma WithoutOneMore(t: Table, ks: seq<ConnectionTuple>)
    requires ks != []
    ensures var n := |ks| - 1;
            KeySet(ks) == KeySet(ks[..n]) + {ks[n]} && Without(t, ks) == Without(t, ks[..n]) - {ks[n]}
  {
    var n := |ks| - 1;
    assert ks == ks[..n] + [ks[n]] && ks[..n + 1] == ks;
    WithoutNext(t, ks, n);
    assert KeySet(ks) == KeySet(ks[..n]) + {ks[n]};
  }

  lemma {:induction false} RemovalsRemove(s: State, before: Trace, ks: seq<ConnectionTuple>)
    ensures var s1 := Run(s, before);
            Run(s, Removals(before, ks, s1.now)) == s1.(table := Without(s1.table, ks), pending := s1.pending - KeySet(ks))
  {
    var s1 := Run(s, before);
    if ks == [] {
      assert Without(s1.table, ks) == s1.table && s1.pending - KeySet(ks) == s1.pending;
    } else {
      RemovalsRemove(s, before, ks[..|ks| - 1]);
      WithoutOneMore(s1.table, ks);
    }
  }

  lemma {:induction false} RemovalsAreLegal(s: State, before: Trace, ks: seq<ConnectionTuple>)
    requires Legal(Unclashed, s, before) && DrawsFromPending(s, before)
    requires KeySet(ks) <= Run(s, before).pending && Distinct(ks)
    ensures var tr := Removals(before, ks, Run(s, before).now); Legal(Unclashed, s, tr) && DrawsFromPending(s, tr)
  {
    if ks != [] {
      var n := |ks| - 1;
      WithoutOneMore(s.table, ks);
      RemovalsAreLegal(s, before, ks[..n]);
      RemovalsRemove(s, before, ks[..n]);
      assert ks[n] in KeySet(ks) && ks[n] !in KeySet(ks[..n]);
    }
  }

  lemma {:induction false} CollectedOnce(t: Table, order: seq<ConnectionTuple>, clock: seq<Instant>)
    requires |order| == |clock| && Distinct(order)
    ensures Distinct(Collected(t, order, clock))
  {
    if order != [] {
      var n := |order| - 1;
      CollectedOnce(t, order[..n], clock[..n]);
      var before := Collected(t, order[..n], clock[..n]);
      assert forall i :: 0 <= i < n ==> order[..n][i] != order[n];
      assert order[n] !in before;
      var ks := Collected(t, order, clock);
      assert ks == before || ks == before + [order[n]];
      forall i, j | 0 <= i < j < |ks|
        ensures ks[i] != ks[j]
      {
        assert ks[i] == before[i] && before[i] in before;
        if j < |before| {
          assert ks[j] == before[j];
        } else {
          assert ks[j] == order[n];
        }
      }
    }
  }

  /**
   * A tick with any readings is a run of the machine: visits that collect, and then removals of what they
   * collected. It takes away exactly the entries that had expired by the reading at their visit.
   */
  lemma TickIsARun(s: State, order: seq<ConnectionTuple>, clock: seq<Instant>)
    requires |order| == |clock| && Ascending(s.now, clock) && s.pending == {}
    requires Distinct(order)
    ensures var tick := Tick(s, order, clock);
            && Legal(Unclashed, s, tick) && DrawsFromPending(s, tick)
            && Run(s, tick)
            == s.(table := Without(s.table, Collected(s.table, order, clock)), now := LastReading(s.now, clock))
  {
    VisitsCollect(s, order, clock);
    VisitsAreLegal(s, order, clock);
    LegalIsMonotone(Clean, s, Visits(order, clock));
    CollectedOnce(s.table, order, clock);
    var gone := Collected(s.table, order, clock);
    RemovalsRemove(s, Visits(order, clock), gone);
    RemovalsAreLegal(s, Visits(order, clock), gone);
    assert s.pending + KeySet(gone) - KeySet(gone) == s.pending;
  }

  /** A tick that visits every entry at the same reading is an atomic sweep. */
  lemma UniformTickIsASweep(s: State, order: seq<ConnectionTuple>, clock: seq<Instant>, at: Instant)
    requires |order| == |clock| && Ascending(s.now, clock) && s.pending == {}
    requires Distinct(order)
    requires (forall k :: k in s.table ==> k in order) && forall i :: 0 <= i < |clock| ==> clock[i] == at
    ensures Run(s, Tick(s, order, clock)).table == Step(s, Sweep, at).table
  {
    TickIsARun(s, order, clock);
    UniformReadings(s.table, order, clock, at);
  }

  lemma UniformReadings(t: Table, order: seq<ConnectionTuple>, clock: seq<Instant>, at: Instant)
    requires |order| == |clock|
    requires (forall k :: k in t ==> k in order) && forall i :: 0 <= i < |clock| ==> clock[i] == at
    ensures Without(t, Collected(t, order, clock)) == Swept(t, at)
  {
    var gone := Collected(t, order, clock);
    forall k | k in t
      ensures k in gone <==> t[k].timeout <= at
    {
      var i :| 0 <= i < |order| && order[i] == k;
    }
  }

  /** Removing any entries from a paired table leaves it paired exactly when it takes both of a flow or none. */
  lemma RemovalKeepsPairsIff(s: State, gone: set<ConnectionTuple>)
    requires Paired(s)
    ensures Paired(s.(table := s.table - gone)) <==> forall k :: k in s.table ==> (k in gone <==> Twin(s, k) in gone)
  {
    var s' := s.(table := s.table - gone);
    forall k | k in s.table
      ensures Twin(s, Twin(s, k)) == k && Twin(s, k) in s.table
    {
      assert PairedAt(s, k);
    }
    if forall k :: k in s.table ==> (k in gone <==> Twin(s, k) in gone) {
      forall k | k in s'.table
        ensures PairedAt(s', k)
      {
        assert PairedAt(s, k);
        PairCarriesOver(s, s', k);
      }
    }
    if Paired(s') {
      forall k | k in s.table && k !in gone
        ensures Twin(s, k) !in gone
      {
        assert PairedAt(s', k);
      }
    }
  }

  /** The readings at the two entries of each flow agree on whether it has expired. */
  predicate ReadingsAgree(s: State, order: seq<ConnectionTuple>, clock: seq<Instant>)
    requires |order| == |clock| && forall k :: k in order <==> k in s.table
  {
    forall i, j :: 0 <= i < |order| && 0 <= j < |order| && order[i] in s.table && order[j] == Twin(s, order[i]) ==>
      (s.table[order[i]].timeout <= clock[i] <==> s.table[order[i]].timeout <= clock[j])
  }

  lemma CollectedAt(t: Table, order: seq<ConnectionTuple>, clock: seq<Instant>, i: nat)
    requires i < |order| == |clock| && order[i] in t && forall j :: 0 <= j < |order| && j != i ==> order[j] != order[i]
    ensures order[i] in Collected(t, order, clock) <==> t[order[i]].timeout <= clock[i]
  {
  }

  lemma PairIsCollected(s: State, order: seq<ConnectionTuple>, clock: seq<Instant>, i: nat, j: nat)
    requires Paired(s) && |order| == |clock| && Distinct(order) && i < |order| && j < |order|
    requires order[i] in s.table && order[j] == Twin(s, order[i])
    ensures order[i] in Collected(s.table, order, clock) <==> s.table[order[i]].timeout <= clock[i]
    ensures order[j] in Collected(s.table, order, clock) <==> s.table[order[i]].timeout <= clock[j]
  {
    assert PairedAt(s, order[i]);
    CollectedAt(s.table, order, clock, i);
    CollectedAt(s.table, order, clock, j);
  }

  lemma ReadingsAgreeIff(s: State, order: seq<ConnectionTuple>, clock: seq<Instant>)
    requires Paired(s) && |order| == |clock| && Distinct(order)
    requires forall k :: k in order <==> k in s.table
    ensures var gone := KeySet(Collected(s.table, order, clock));
            ReadingsAgree(s, order, clock) <==> forall k :: k in s.table ==> (k in gone <==> Twin(s, k) in gone)
  {
    var gone := KeySet(Collected(s.table, order, clock));
    if ReadingsAgree(s, order, clock) {
      forall k | k in s.table
        ensures k in gone <==> Twin(s, k) in gone
      {
        assert PairedAt(s, k);
        var i :| 0 <= i < |order| && order[i] == k;
        var j :| 0 <= j < |order| && order[j] == Twin(s, k);
        PairIsCollected(s, order, clock, i, j);
      }
    }
    if forall k :: k in s.table ==> (k in gone <==> Twin(s, k) in gone) {
      forall i, j | 0 <= i < |order| && 0 <= j < |order| && order[i] in s.table && order[j] == Twin(s, order[i])
        ensures s.table[order[i]].timeout <= clock[i] <==> s.table[order[i]].timeout <= clock[j]
      {
        PairIsCollected(s, order, clock, i, j);
      }
    }
  }

  /**
   * A tick that visits every entry of a paired table leaves it paired if and only if the two readings of each
   * flow agree on whether it has expired.
   */
  lemma TickKeepsPairsIff(s: State, order: seq<ConnectionTuple>, clock: seq<Instant>)
    requires Paired(s) && |order| == |clock| && Ascending(s.now, clock) && s.pending == {}
    requires Distinct(order)
    requires forall k :: k in order <==> k in s.table
    ensures Paired(Run(s, Tick(s, order, clock))) <==> ReadingsAgree(s, order, clock)
  {
    var gone := KeySet(Collected(s.table, order, clock));
    TickIsARun(s, order, clock);
    RemovalKeepsPairsIff(s, gone);
    ReadingsAgreeIff(s, order, clock);
    SamePairs(s.(table := s.table - gone), Run(s, Tick(s, order, clock)));
  }

  /** Pairing is about the table and the containers only. */
  lemma SamePairs(s: State, s': State)
    requires s.table == s'.table && s.control.containers == s'.control.containers
    ensures Paired(s) <==> Paired(s')
  {
    forall k | k in s.table
      ensures PairedAt(s, k) <==> PairedAt(s', k)
    {
    }
  }
}
