/** What every run keeps, even with key clashes, failed inserts and sweeps that packets interrupt. */
module Unconditional {
  import opened Words
  import opened Common
  import opened Conntrack
  import opened Control
  import opened Datapath
  import opened System

  /** No entry outlives its promise: 180 s from now, and 30 s unless a reply was seen. */
  predicate Bounded(t: Table, now: Instant) {
    forall k :: k in t ==> t[k].timeout <= now + if t[k].seenReply then TIMEOUT_EST else TIMEOUT_NEW
  }

  /** A hit touches the mutable fields of at most two entries. */
  lemma TouchedFrame(t: Table, k: ConnectionTuple, rk: ConnectionTuple, now: Instant)
    requires k in t
    ensures var t' := Touched(t, k, rk, now);
            && t'.Keys == t.Keys
            && (forall j :: j in t ==> t'[j].xlat == t[j].xlat && t'[j].direction == t[j].direction)
            && (forall j :: j in t && j != k && j != rk ==> t'[j] == t[j])
  {
  }

  /** Opening a flow never overwrites an entry. */
  lemma CreatedFrame(flag: Flags, t: Table, k: ConnectionTuple, o: Opening, now: Instant)
    requires k !in t
    ensures var t', rk := Created(flag, t, k, o, now), ReverseKey(flag, k, o.forward);
            && t.Keys <= t'.Keys <= t.Keys + {k, rk}
            && (forall j :: j in t ==> t'[j] == t[j])
            && (k in t' ==> t'[k] == NewFlow(o.forward, Original, now + TIMEOUT_NEW))
            && (rk in t' && rk !in t && rk != k ==> t'[rk] == NewFlow(o.backward, Reply, now + TIMEOUT_NEW))
  {
  }

  /** A refreshed entry is within the bound, and so is the reverse entry: it copies both fields together. */
  lemma TouchedKeepsBound(t: Table, k: ConnectionTuple, rk: ConnectionTuple, now: Instant)
    requires k in t && Bounded(t, now)
    ensures Bounded(Touched(t, k, rk, now), now)
  {
    if NeedsRefresh(t[k], now) {
      var s := Refreshed(t[k], now);
      assert s.timeout <= now + if s.seenReply then TIMEOUT_EST else TIMEOUT_NEW;
    }
  }

  lemma CreatedKeepsBound(flag: Flags, t: Table, k: ConnectionTuple, o: Opening, now: Instant)
    requires k !in t && Bounded(t, now)
    ensures Bounded(Created(flag, t, k, o, now), now)
  {
  }

  lemma StepKeepsBound(s: State, e: Event, at: Instant)
    requires Bounded(s.table, s.now) && s.now <= at
    ensures Bounded(Step(s, e, at).table, at)
  {
    assert Bounded(s.table, at);
    if e.Packet? {
      if e.key in s.table {
        TouchedKeepsBound(s.table, e.key, ReverseKey(e.flag, e.key, s.table[e.key].xlat), at);
      } else if Opens(s, e).Some? {
        CreatedKeepsBound(e.flag, s.table, e.key, Opens(s, e).value, at);
      }
    }
  }

  /** The lifetime bound holds in every reachable state. */
  lemma {:induction false} LifetimeIsBounded(s: State, tr: Trace)
    requires Bounded(s.table, s.now) && Legal(Timely, s, tr)
    ensures Bounded(Run(s, tr).table, Run(s, tr).now)
  {
    if tr.Then? {
      LifetimeIsBounded(s, tr.before);
      StepKeepsBound(Run(s, tr.before), tr.last, tr.at);
    }
  }

  /** The entry is an original one without a reply, and the packet is late enough to refresh it. */
  predicate IsUnansweredAndDue(f: FlowState, now: Instant) {
    f.direction.Original? && !f.seenReply && now + TIMEOUT_NEW > f.timeout + THRESHOLD_NS
  }

  /**
   * A hit can lower the reverse entry, which takes over both fields of the entry that is hit. It takes the reply
   * flag away exactly when it refreshes an unanswered original entry whose reverse entry has seen a reply, and
   * moves the timeout back exactly when that entry was moreover to live longer than a new flow.
   */
  lemma HitLowersReverseIff(t: Table, k: ConnectionTuple, rk: ConnectionTuple, now: Instant)
    requires k in t && rk in t && k != rk && Bounded(t, now)
    ensures var t' := Touched(t, k, rk, now);
            && (t[rk].seenReply && !t'[rk].seenReply <==> IsUnansweredAndDue(t[k], now) && t[rk].seenReply)
            && (t'[rk].timeout < t[rk].timeout
                <==> IsUnansweredAndDue(t[k], now) && t[rk].seenReply && now + TIMEOUT_NEW < t[rk].timeout)
  {
    assert t[rk].timeout <= now + if t[rk].seenReply then TIMEOUT_EST else TIMEOUT_NEW;
  }

  /**
   * So it happens after a clash: a flow that opens on a taken reverse key takes the owner's reply flag and
   * lifetime away by its next packet, exactly when that packet comes more than a second later.
   */
  lemma NewcomerLowersOwnerIff(s: State, e: Event, at: Instant, again: Event, later: Instant)
    requires Bounded(s.table, s.now) && s.now <= at <= later && Clashes(s, e)
    requires again.Packet? && again.flag == e.flag && again.key == e.key
    requires e.key != ReverseKey(e.flag, e.key, Opens(s, e).value.forward)
    ensures var owned := ReverseKey(e.flag, e.key, Opens(s, e).value.forward);
            var s1 := Step(s, e, at);
            var s2 := Step(s1, again, later);
            && owned in s.table && owned in s1.table && s1.table[owned] == s.table[owned] && owned in s2.table
            && (s1.table[owned].seenReply && !s2.table[owned].seenReply
                <==> s.table[owned].seenReply && later > at + THRESHOLD_NS)
            && (s2.table[owned].timeout < s1.table[owned].timeout
                <==> s.table[owned].seenReply && later > at + THRESHOLD_NS && later + TIMEOUT_NEW < s.table[owned].timeout)
  {
    var owned := ReverseKey(e.flag, e.key, Opens(s, e).value.forward);
    var s1 := Step(s, e, at);
    CreatedFrame(e.flag, s.table, e.key, Opens(s, e).value, at);
    StepKeepsBound(s, e, at);
    assert Bounded(s1.table, later);
    HitLowersReverseIff(s1.table, e.key, owned, later);
    TouchedFrame(s1.table, e.key, owned, later);
  }

  lemma StepIsSticky(s: State, e: Event, at: Instant, k: ConnectionTuple)
    requires k in s.table && k in Step(s, e, at).table
    ensures var s' := Step(s, e, at);
            s'.table[k].xlat == s.table[k].xlat && s'.table[k].direction == s.table[k].direction
  {
    if e.Packet? {
      if e.key in s.table {
        TouchedFrame(s.table, e.key, ReverseKey(e.flag, e.key, s.table[e.key].xlat), at);
      } else if Opens(s, e).Some? {
        CreatedFrame(e.flag, s.table, e.key, Opens(s, e).value, at);
      }
    }
  }

  /**
   * While a flow stays in the table, nothing redirects it: neither other packets, nor sweeps, nor exposing,
   * unexposing and re-exposing its port. Its packets get the translation it had at the start.
   */
  lemma {:induction false} TranslationIsSticky(s: State, tr: Trace, k: ConnectionTuple)
    requires AliveThroughout(s, tr, k)
    ensures k in s.table && k in Run(s, tr).table
    ensures Run(s, tr).table[k].direction == s.table[k].direction
    ensures Run(s, tr).table[k].xlat == s.table[k].xlat
    ensures forall o :: TranslationOf(Run(s, tr).table, k, o) == Some(s.table[k].xlat)
  {
    if tr.Then? {
      TranslationIsSticky(s, tr.before, k);
      StepIsSticky(Run(s, tr.before), tr.last, tr.at, k);
    }
  }

  /** The metadata of a container is filed under its own address. */
  predicate WellKeyed(c: ControlState) {
    forall ip :: ip in c.containers ==> c.containers[ip].ipv4 == ip
  }

  /** Only known containers are exposed. */
  predicate KnownExposures(c: ControlState) {
    forall p :: p in c.expose ==> c.expose[p].containerIp in c.containers
  }

  /**
   * Keys with a container source are the veth program's, and lead out through the NIC; all others are the NIC
   * program's, and lead to the container that they name.
   */
  predicate Separated(s: State) {
    forall k :: k in s.table ==> SeparatedAt(s, k)
  }

  predicate SeparatedAt(s: State, k: ConnectionTuple)
    requires k in s.table
  {
    var x := s.table[k].xlat;
    if IsContainer(s, k.srcAddr) then
      x.devmapKey == 0 && !IsContainer(s, k.dstAddr)
    else
      x.devmapKey == x.natAddr && IsContainer(s, x.natAddr)
  }

  /** An entry that stays keeps its place. */
  lemma OldEntryStaysApart(s: State, e: Event, at: Instant, k: ConnectionTuple)
    requires Separated(s) && k in s.table && k in Step(s, e, at).table
    ensures SeparatedAt(Step(s, e, at), k)
  {
    assert SeparatedAt(s, k);
    StepIsSticky(s, e, at, k);
  }

  /** Only a packet that opens a flow adds entries: its own, and the one for its answers. */
  lemma NewEntry(s: State, e: Event, at: Instant, k: ConnectionTuple)
    requires k !in s.table && k in Step(s, e, at).table
    ensures e.Packet? && e.key !in s.table && Opens(s, e).Some?
    ensures var o := Opens(s, e).value;
            || (k == e.key && Step(s, e, at).table[k].xlat == o.forward)
            || (k == ReverseKey(e.flag, e.key, o.forward) && Step(s, e, at).table[k].xlat == o.backward)
  {
    if e.Packet? {
      if e.key in s.table {
        TouchedFrame(s.table, e.key, ReverseKey(e.flag, e.key, s.table[e.key].xlat), at);
      } else if Opens(s, e).Some? {
        CreatedFrame(e.flag, s.table, e.key, Opens(s, e).value, at);
      }
    }
  }

  lemma StepKeepsSeparation(s: State, e: Event, at: Instant)
    requires WellKeyed(s.control) && KnownExposures(s.control) && Separated(s) && Sited(s, e)
    ensures var s' := Step(s, e, at);
            WellKeyed(s'.control) && KnownExposures(s'.control) && Separated(s')
  {
    var s' := Step(s, e, at);
    forall k | k in s'.table
      ensures SeparatedAt(s', k)
    {
      if k in s.table {
        OldEntryStaysApart(s, e, at, k);
      } else {
        NewEntry(s, e, at, k);
      }
    }
  }

  /** The two programs never hit each other's entries, in any run on a well-behaved network. */
  lemma {:induction false} ProgramsStayApart(s: State, tr: Trace)
    requires WellKeyed(s.control) && KnownExposures(s.control) && Separated(s) && Legal(Orderly, s, tr)
    ensures var s' := Run(s, tr);
            WellKeyed(s'.control) && KnownExposures(s'.control) && Separated(s')
  {
    if tr.Then? {
      ProgramsStayApart(s, tr.before);
      StepKeepsSeparation(Run(s, tr.before), tr.last, tr.at);
    }
  }

  /**
   * After every such run, with the device map that start-up fills, each packet that is translated is also
   * redirected: at a veth to the NIC, and at the NIC to the device of the container that it is now addressed to.
   * A container at address 0 would share the NIC's key.
   */
  lemma TranslatedMeansRedirected(s: State, tr: Trace, e: Event, nicIfindex: u32)
    requires WellKeyed(s.control) && KnownExposures(s.control) && Separated(s) && Legal(Orderly, s, tr)
    requires e.Packet? && Sited(Run(s, tr), e)
    ensures var s' := Run(s, tr);
            var x := TranslationOf(s'.table, e.key, Opens(s', e));
            x.Some? ==>
              && (e.flag.Dnat? ==> x.value.natAddr in s.control.containers)
              && ActionOn(DeviceMap(s.control.containers, nicIfindex), x) == XdpAction.Redirect(
                   if e.flag.Snat? || x.value.natAddr == 0 then nicIfindex
                   else s.control.containers[x.value.natAddr].ifindex)
  {
    ProgramsStayApart(s, tr);
    RunKeepsTheSite(s, tr);
    var s' := Run(s, tr);
    if e.key in s'.table {
      assert SeparatedAt(s', e.key);
    }
  }

  /** Every packet at the NIC is addressed to the host, and so is every reply that the veth program arranges. */
  predicate AddressedTo(host: u32, tr: Trace) {
    tr.Then? ==> AddressedTo(host, tr.before) && (tr.last.Packet? && tr.last.flag.Dnat? ==> tr.last.key.dstAddr == host)
  }

  predicate Fronted(s: State, host: u32) {
    && (s.pnic.Some? ==> s.pnic.value.nicIp == host)
    && (forall k :: k in s.table ==>
          if IsContainer(s, k.srcAddr) then s.table[k].xlat.natAddr == host else k.dstAddr == host)
  }

  /** Then all that leaves through the NIC carries the host's address, and all that enters came to it. */
  lemma {:induction false} HostFrontsTheContainers(s: State, tr: Trace, host: u32)
    requires Fronted(s, host) && AddressedTo(host, tr)
    requires WellKeyed(s.control) && KnownExposures(s.control) && Separated(s) && Legal(Orderly, s, tr)
    ensures Fronted(Run(s, tr), host)
  {
    if tr.Then? {
      HostFrontsTheContainers(s, tr.before, host);
      ProgramsStayApart(s, tr.before);
      StepKeepsFront(Run(s, tr.before), tr.last, tr.at, host);
    }
  }

  lemma StepKeepsFront(s: State, e: Event, at: Instant, host: u32)
    requires Fronted(s, host) && KnownExposures(s.control) && Sited(s, e)
    requires e.Packet? && e.flag.Dnat? ==> e.key.dstAddr == host
    ensures Fronted(Step(s, e, at), host)
  {
    var s' := Step(s, e, at);
    forall k | k in s'.table
      ensures if IsContainer(s', k.srcAddr) then s'.table[k].xlat.natAddr == host else k.dstAddr == host
    {
      if k in s.table {
        StepIsSticky(s, e, at, k);
      } else {
        NewEntry(s, e, at, k);
      }
    }
  }

  /** The program that sees the packets of a key: the sender's veth, or the NIC. */
  function ProgramFor(s: State, k: ConnectionTuple): Flags {
    if IsContainer(s, k.srcAddr) then Snat else Dnat
  }

  /**
   * Why the destination must not be a container: the answer to a flow that a container opens is brought back
   * to it exactly then. Between two containers the answer has its source rewritten instead of its destination.
   */
  lemma AnswerComesBackIff(s: State, e: Event, at: Instant)
    requires e.Packet? && e.flag.Snat? && e.key !in s.table && Opens(s, e).Some?
    requires !Clashes(s, e) && |s.table| + 2 <= CONNTRACK_MAX && e.key.srcAddr != e.key.dstAddr
    ensures var answer := ReverseKey(Snat, e.key, Opens(s, e).value.forward);
            var s' := Step(s, e, at);
            && answer in s'.table
            && (TranslatedTuple(ProgramFor(s, answer), answer, s'.table[answer].xlat) == e.key.Swapped()
                <==> !IsContainer(s, e.key.dstAddr))
  {
    CreatedFrame(Snat, s.table, e.key, Opens(s, e).value, at);
  }
}
