/** What every sequence of control-plane calls keeps, on every failure path. */
module PortLaws {
  import opened Words
  import opened Common
  import opened Control
  import opened System

  /** Every port of the range is either free or exposed, exactly once. */
  predicate Conserved(c: ControlState, range: seq<u16>) {
    multiset(c.free) + multiset(c.expose.Keys) == multiset(range)
  }

  /** The rules that forward each exposed port to its container. */
  function RulesOf(expose: map<u16, ContainerInfo>): set<Rule> {
    set p | p in expose :: Rule(p, expose[p].containerIp, expose[p].containerPort)
  }

  /**
   * The TCP rules and the UDP map describe the same relation: a rule is installed, once, if and only if its host
   * port is exposed to the container and the port that it names.
   */
  ghost predicate InSync(c: ControlState) {
    forall h: u16, ip: u32, port: u16 ::
      c.rules[Rule(h, ip, port)]
      == if h in c.expose && c.expose[h].containerIp == ip && c.expose[h].containerPort == port then 1 else 0
  }

  lemma InSyncIff(c: ControlState)
    ensures InSync(c) <==> c.rules == multiset(RulesOf(c.expose))
  {
    forall h: u16, ip: u32, port: u16
      ensures multiset(RulesOf(c.expose))[Rule(h, ip, port)]
           == if h in c.expose && c.expose[h].containerIp == ip && c.expose[h].containerPort == port then 1 else 0
    {
      assert Rule(h, ip, port) in RulesOf(c.expose)
        <==> h in c.expose && c.expose[h].containerIp == ip && c.expose[h].containerPort == port;
    }
    if InSync(c) {
      forall r: Rule
        ensures c.rules[r] == multiset(RulesOf(c.expose))[r]
      {
        assert r == Rule(r.hostPort, r.containerIp, r.containerPort);
      }
    }
  }

  lemma HeadAndTail(q: seq<u16>)
    requires q != []
    ensures multiset(q) == multiset{q[0]} + multiset(q[1..])
    ensures multiset(Rotated(q)) == multiset(q)
  {
    assert q == [q[0]] + q[1..];
  }

  lemma KeyCount(ks: set<u16>, p: u16)
    requires p !in ks
    ensures multiset(ks + {p}) == multiset(ks) + multiset{p}
  {
  }

  lemma ExposeConserves(c: ControlState, call: Call, range: seq<u16>)
    requires Conserved(c, range) && call.Expose? && !RemovalFails(c, call)
    ensures Conserved(After(c, call), range)
  {
    var c' := After(c, call);
    if c.free != [] {
      HeadAndTail(c.free);
      if c'.free == c.free[1..] && c'.expose != c.expose {
        KeyCount(c.expose.Keys, c.free[0]);
        assert c'.expose.Keys == c.expose.Keys + {c.free[0]};
      }
    }
  }

  lemma UnexposeConserves(c: ControlState, call: Call, range: seq<u16>)
    requires Conserved(c, range) && call.Unexpose? && !RemovalFails(c, call)
    ensures Conserved(After(c, call), range)
  {
    var c' := After(c, call);
    if c' != c {
      KeyCount(c'.expose.Keys, call.hostPort);
      assert c.expose.Keys == c'.expose.Keys + {call.hostPort};
      assert multiset(c'.free) == multiset(c.free) + multiset{call.hostPort};
    }
  }

  lemma CallConserves(c: ControlState, call: Call, range: seq<u16>)
    requires Conserved(c, range) && !RemovalFails(c, call)
    ensures Conserved(After(c, call), range)
  {
    if call.Expose? {
      ExposeConserves(c, call, range);
    } else {
      UnexposeConserves(c, call, range);
    }
  }

  /** How often the run ignored that the map refused to remove a port. */
  function FailedRemovals(s: State, tr: Trace): nat {
    match tr
    case Start => 0
    case Then(before, last, _) =>
      FailedRemovals(s, before) + if last.ControlCall? && RemovalFails(Run(s, before).control, last.call) then 1 else 0
  }

  lemma OneMoreExposed(expose: map<u16, ContainerInfo>, p: u16, info: ContainerInfo)
    requires p !in expose
    ensures |expose[p := info]| == |expose| + 1
  {
    assert expose[p := info].Keys == expose.Keys + {p};
  }

  lemma OneFewerExposed(expose: map<u16, ContainerInfo>, p: u16)
    requires p in expose
    ensures |expose - {p}| == |expose| - 1
  {
    assert expose.Keys == (expose - {p}).Keys + {p};
  }

  lemma CallCounts(c: ControlState, call: Call)
    ensures var c', failed := After(c, call), if RemovalFails(c, call) then 1 else 0;
            && |c'.free| + |c'.expose| == |c.free| + |c.expose| + failed
            && |c'.expose| - |c'.rules| == |c.expose| - |c.rules| + failed
  {
    if call.Expose? {
      if call.ip in c.containers && c.free != [] && CanInsert(c, call) {
        OneMoreExposed(c.expose, c.free[0], InfoFor(c.containers[call.ip], call.port));
      }
    } else if CanUnexpose(c, call) {
      OneFewerExposed(c.expose, call.hostPort);
    }
  }

  /** Each ignored failure puts one port in two places, and leaves one exposed port more without a rule. */
  lemma {:induction false} FailedRemovalsAreCounted(s: State, tr: Trace)
    ensures var c, c' := s.control, Run(s, tr).control;
            && |c'.free| + |c'.expose| == |c.free| + |c.expose| + FailedRemovals(s, tr)
            && |c'.expose| - |c'.rules| == |c.expose| - |c.rules| + FailedRemovals(s, tr)
  {
    if tr.Then? {
      FailedRemovalsAreCounted(s, tr.before);
      if tr.last.ControlCall? {
        CallCounts(Run(s, tr.before).control, tr.last.call);
      }
    }
  }

  lemma ConservedSize(c: ControlState, range: seq<u16>)
    requires Conserved(c, range)
    ensures |c.free| + |c.expose| == |range|
  {
    assert |multiset(c.free)| == |c.free| && |multiset(c.expose.Keys)| == |c.expose.Keys|;
    assert |multiset(c.free) + multiset(c.expose.Keys)| == |multiset(range)| == |range|;
  }

  lemma {:induction false} PortsStayConserved(s: State, tr: Trace, range: seq<u16>)
    requires Conserved(s.control, range) && FailedRemovals(s, tr) == 0
    ensures Conserved(Run(s, tr).control, range)
  {
    if tr.Then? {
      PortsStayConserved(s, tr.before, range);
      if tr.last.ControlCall? {
        CallConserves(Run(s, tr.before).control, tr.last.call, range);
      }
    }
  }

  /** Ports are conserved over a run, from start-up on, exactly when no failed removal was ignored in it. */
  lemma PortsAreConservedIff(s: State, tr: Trace, range: seq<u16>)
    requires Conserved(s.control, range)
    ensures Conserved(Run(s, tr).control, range) <==> FailedRemovals(s, tr) == 0
  {
    if FailedRemovals(s, tr) == 0 {
      PortsStayConserved(s, tr, range);
    } else if Conserved(Run(s, tr).control, range) {
      FailedRemovalsAreCounted(s, tr);
      ConservedSize(s.control, range);
      ConservedSize(Run(s, tr).control, range);
      assert false;
    }
  }

  /** Read back: free and exposed ports are disjoint, without duplicates, and together the range. */
  lemma ConservedMeans(c: ControlState, range: seq<u16>)
    requires Conserved(c, range)
    requires Distinct(range)
    ensures forall p :: p in range <==> p in c.free || p in c.expose
    ensures forall p :: p in c.free ==> p !in c.expose
    ensures Distinct(c.free)
    ensures |c.free| + |c.expose| == |range|
  {
    var all := multiset(range);
    forall p
      ensures all[p] <= 1 && (p in range <==> all[p] == 1)
    {
      DistinctCount(range, p);
    }
    assert multiset(c.free) + multiset(c.expose.Keys) == all;
    forall p
      ensures (p in range <==> p in c.free || p in c.expose) && !(p in c.free && p in c.expose)
    {
      assert multiset(c.free)[p] + multiset(c.expose.Keys)[p] == all[p];
      assert p in c.free <==> p in multiset(c.free);
      assert p in c.expose <==> p in multiset(c.expose.Keys);
    }
    forall i, j | 0 <= i < j < |c.free|
      ensures c.free[i] != c.free[j]
    {
      if c.free[i] == c.free[j] {
        assert multiset(c.free)[c.free[i]] + multiset(c.expose.Keys)[c.free[i]] == all[c.free[i]] <= 1;
        CountOfTwo(c.free, i, j);
      }
    }
    ConservedSize(c, range);
  }

  lemma DistinctCount(q: seq<u16>, p: u16)
    requires Distinct(q)
    ensures multiset(q)[p] == if p in q then 1 else 0
  {
    if q != [] {
      HeadAndTail(q);
      DistinctCount(q[1..], p);
    }
  }

  lemma CountOfTwo(q: seq<u16>, i: nat, j: nat)
    requires i < j < |q| && q[i] == q[j]
    ensures multiset(q)[q[i]] >= 2
  {
    assert q == q[..i] + [q[i]] + q[i + 1..j] + [q[j]] + q[j + 1..];
  }

  lemma RuleWithout(expose: map<u16, ContainerInfo>, p: u16)
    requires p in expose
    ensures RuleFor(p, expose[p]) in RulesOf(expose)
    ensures RulesOf(expose - {p}) == RulesOf(expose) - {RuleFor(p, expose[p])}
  {
    var rest := expose - {p};
    forall r | r in RulesOf(expose) && r != RuleFor(p, expose[p])
      ensures r in RulesOf(rest)
    {
      var q :| q in expose && r == Rule(q, expose[q].containerIp, expose[q].containerPort);
      assert q in rest && r == Rule(q, rest[q].containerIp, rest[q].containerPort);
    }
  }

  lemma RuleWith(expose: map<u16, ContainerInfo>, p: u16, info: ContainerInfo)
    requires p !in expose
    ensures RulesOf(expose[p := info]) == RulesOf(expose) + {RuleFor(p, info)} && RuleFor(p, info) !in RulesOf(expose)
  {
    RuleWithout(expose[p := info], p);
    assert expose[p := info] - {p} == expose;
  }

  lemma CallKeepsSync(c: ControlState, call: Call)
    requires InSync(c) && !RemovalFails(c, call)
    ensures InSync(After(c, call))
  {
    InSyncIff(c);
    InSyncIff(After(c, call));
    if Answer(c, call).Exposed? {
      var p, info := c.free[0], InfoFor(c.containers[call.ip], call.port);
      RuleWith(c.expose, p, info);
      AddOne(RulesOf(c.expose), RuleFor(p, info));
    } else if Answer(c, call).Unexposed? {
      RuleWithout(c.expose, call.hostPort);
      AddOne(RulesOf(c.expose - {call.hostPort}), RuleFor(call.hostPort, c.expose[call.hostPort]));
    }
  }

  lemma AddOne(rs: set<Rule>, r: Rule)
    requires r !in rs
    ensures multiset(rs + {r}) == multiset(rs) + multiset{r}
    ensures multiset(rs + {r}) - multiset{r} == multiset(rs)
  {
  }

  lemma {:induction false} RuleCount(expose: map<u16, ContainerInfo>)
    ensures |RulesOf(expose)| == |expose|
    decreases |expose|
  {
    if p :| p in expose {
      RuleWithout(expose, p);
      OneFewerExposed(expose, p);
      RuleCount(expose - {p});
    }
  }

  lemma {:induction false} RulesStayInSync(s: State, tr: Trace)
    requires InSync(s.control) && FailedRemovals(s, tr) == 0
    ensures InSync(Run(s, tr).control)
  {
    if tr.Then? {
      RulesStayInSync(s, tr.before);
      if tr.last.ControlCall? {
        CallKeepsSync(Run(s, tr.before).control, tr.last.call);
      }
    }
  }

  /**
   * The rules and the map stay in step over a run, whatever iptables and map insertion refuse, exactly when no
   * failed removal was ignored in it.
   */
  lemma RulesFollowTheMapIff(s: State, tr: Trace)
    requires InSync(s.control)
    ensures InSync(Run(s, tr).control) <==> FailedRemovals(s, tr) == 0
  {
    if FailedRemovals(s, tr) == 0 {
      RulesStayInSync(s, tr);
    } else if InSync(Run(s, tr).control) {
      InSyncIff(s.control);
      InSyncIff(Run(s, tr).control);
      FailedRemovalsAreCounted(s, tr);
      RuleCount(s.control.expose);
      RuleCount(Run(s, tr).control.expose);
      assert false;
    }
  }

  /** The exposed ports that are not free as well. */
  function Held(c: ControlState): map<u16, ContainerInfo> {
    map p | p in c.expose && p !in c.free :: c.expose[p]
  }

  /**
   * What every failure leaves intact: no port is free twice, every port of the range is free or exposed and no
   * other is, and the rules are those of the exposed ports that are not free.
   */
  ghost predicate Pooled(c: ControlState, range: seq<u16>) {
    && Distinct(c.free)
    && (forall p :: p in range <==> p in c.free || p in c.expose)
    && c.rules == multiset(RulesOf(Held(c)))
  }

  /** The ports that are both free and exposed. */
  function Stuck(c: ControlState): set<u16> {
    set p | p in c.free && p in c.expose
  }

  lemma ConservedIsPooled(c: ControlState, range: seq<u16>)
    requires Conserved(c, range) && InSync(c) && Distinct(range)
    ensures Pooled(c, range) && Stuck(c) == {}
  {
    ConservedMeans(c, range);
    InSyncIff(c);
    assert Held(c) == c.expose;
  }

  lemma RotationIsDistinct(q: seq<u16>)
    requires q != [] && Distinct(q)
    ensures Distinct(Rotated(q)) && Distinct(q[1..]) && q[0] !in q[1..]
    ensures forall p :: p in Rotated(q) <==> p in q
    ensures forall p :: p in q <==> p == q[0] || p in q[1..]
  {
    assert q == [q[0]] + q[1..];
  }

  /** A port whose rule is installed is not free, so returning it cannot make it free twice. */
  lemma UnexposedPortIsHeld(c: ControlState, call: Call, range: seq<u16>)
    requires Pooled(c, range) && call.Unexpose? && CanUnexpose(c, call)
    ensures call.hostPort in Held(c) && call.hostPort !in c.free
  {
    var r := RuleFor(call.hostPort, c.expose[call.hostPort]);
    assert r in RulesOf(Held(c));
  }

  /** Putting the front port back changes nothing but the order. */
  lemma RotatingKeepsPool(c: ControlState, range: seq<u16>)
    requires Pooled(c, range) && c.free != []
    ensures var c' := c.(free := Rotated(c.free));
            Pooled(c', range) && Held(c') == Held(c) && Stuck(c') == Stuck(c)
  {
    RotationIsDistinct(c.free);
  }

  /** The front port is exposed without a rule, and put back all the same. */
  lemma StickingKeepsPool(c: ControlState, range: seq<u16>, info: ContainerInfo)
    requires Pooled(c, range) && c.free != [] && c.free[0] !in c.expose
    ensures var c' := c.(expose := c.expose[c.free[0] := info]);
            Pooled(c', range) && Held(c') == Held(c) && Stuck(c') == Stuck(c) + {c.free[0]} && c.free[0] !in Stuck(c)
  {
    var c' := c.(expose := c.expose[c.free[0] := info]);
    assert c.free[0] in c.free;
    assert Held(c') == Held(c);
  }

  lemma TakingKeepsPool(c: ControlState, range: seq<u16>, info: ContainerInfo)
    requires Pooled(c, range) && c.free != [] && c.free[0] !in c.expose
    ensures var p := c.free[0];
            var c' := c.(free := c.free[1..], expose := c.expose[p := info], rules := c.rules + multiset{RuleFor(p, info)});
            Pooled(c', range) && Stuck(c') == Stuck(c)
  {
    var p := c.free[0];
    var c' := c.(free := c.free[1..], expose := c.expose[p := info], rules := c.rules + multiset{RuleFor(p, info)});
    RotationIsDistinct(c.free);
    assert Held(c') == Held(c)[p := info];
    RuleWith(Held(c), p, info);
    AddOne(RulesOf(Held(c)), RuleFor(p, info));
  }

  /** A held port is freed with its rule, whether or not it goes from the map. */
  lemma ReturningKeepsPool(c: ControlState, range: seq<u16>, p: u16, removed: bool)
    requires Pooled(c, range) && p in Held(c)
    ensures var c' := c.(free := c.free + [p], expose := if removed then c.expose - {p} else c.expose,
                         rules := c.rules - multiset{RuleFor(p, c.expose[p])});
            Pooled(c', range) && p !in Stuck(c) && Stuck(c') == if removed then Stuck(c) else Stuck(c) + {p}
  {
    var c' := c.(free := c.free + [p], expose := if removed then c.expose - {p} else c.expose,
                 rules := c.rules - multiset{RuleFor(p, c.expose[p])});
    assert forall q :: q in c'.free <==> q in c.free || q == p;
    assert Held(c') == Held(c) - {p};
    RuleWithout(Held(c), p);
    AddOne(RulesOf(Held(c')), RuleFor(p, c.expose[p]));
    assert RulesOf(Held(c)) == RulesOf(Held(c')) + {RuleFor(p, c.expose[p])};
  }

  lemma ExposeKeepsPool(c: ControlState, call: Call, range: seq<u16>)
    requires Pooled(c, range) && call.Expose?
    ensures Pooled(After(c, call), range)
    ensures Stuck(After(c, call)) == Stuck(c) + if RemovalFails(c, call) then {c.free[0]} else {}
    ensures RemovalFails(c, call) ==> c.free[0] !in Stuck(c)
  {
    if call.ip in c.containers && c.free != [] {
      var info := InfoFor(c.containers[call.ip], call.port);
      if CanInsert(c, call) && call.ruleWorks {
        TakingKeepsPool(c, range, info);
      } else if RemovalFails(c, call) {
        StickingKeepsPool(c, range, info);
        RotatingKeepsPool(c.(expose := c.expose[c.free[0] := info]), range);
      } else {
        RotatingKeepsPool(c, range);
      }
    }
  }

  lemma UnexposeKeepsPool(c: ControlState, call: Call, range: seq<u16>)
    requires Pooled(c, range) && call.Unexpose?
    ensures Pooled(After(c, call), range)
    ensures Stuck(After(c, call)) == Stuck(c) + if RemovalFails(c, call) then {call.hostPort} else {}
    ensures RemovalFails(c, call) ==> call.hostPort !in Stuck(c)
  {
    if CanUnexpose(c, call) {
      UnexposedPortIsHeld(c, call, range);
      ReturningKeepsPool(c, range, call.hostPort, call.removeWorks);
    }
  }

  /** The port that an ignored failure leaves both free and exposed. */
  function PortOfCall(c: ControlState, call: Call): u16
    requires RemovalFails(c, call)
  {
    if call.Expose? then c.free[0] else call.hostPort
  }

  lemma CallKeepsPool(c: ControlState, call: Call, range: seq<u16>)
    requires Pooled(c, range)
    ensures Pooled(After(c, call), range)
    ensures Stuck(After(c, call)) == Stuck(c) + if RemovalFails(c, call) then {PortOfCall(c, call)} else {}
    ensures RemovalFails(c, call) ==> PortOfCall(c, call) !in Stuck(c)
  {
    if call.Expose? {
      ExposeKeepsPool(c, call, range);
    } else {
      UnexposeKeepsPool(c, call, range);
    }
  }

  /** The pool over every run, with any failures: no port is lost, and none is returned that is free already. */
  lemma {:induction false} PoolStaysSound(s: State, tr: Trace, range: seq<u16>)
    requires Pooled(s.control, range)
    ensures Pooled(Run(s, tr).control, range)
  {
    if tr.Then? {
      PoolStaysSound(s, tr.before, range);
      if tr.last.ControlCall? {
        CallKeepsPool(Run(s, tr.before).control, tr.last.call, range);
      }
    }
  }

  lemma CallKeepsStuck(c: ControlState, call: Call, range: seq<u16>, p: u16)
    requires Pooled(c, range) && p in Stuck(c)
    ensures p in Stuck(After(c, call)) && After(c, call).expose[p] == c.expose[p]
  {
    CallKeepsPool(c, call, range);
    assert p in Stuck(After(c, call));
    if call.Unexpose? && CanUnexpose(c, call) {
      UnexposedPortIsHeld(c, call, range);
    }
  }

  /** A port that is both free and exposed stays so over every run, and stays with its container. */
  lemma {:induction false} StuckForGood(s: State, tr: Trace, range: seq<u16>, p: u16)
    requires Pooled(s.control, range) && p in Stuck(s.control)
    ensures p in Stuck(Run(s, tr).control) && Run(s, tr).control.expose[p] == s.control.expose[p]
  {
    if tr.Then? {
      StuckForGood(s, tr.before, range, p);
      PoolStaysSound(s, tr.before, range);
      if tr.last.ControlCall? {
        CallKeepsStuck(Run(s, tr.before).control, tr.last.call, range, p);
      }
    }
  }

  lemma CallCountsStuck(c: ControlState, call: Call, range: seq<u16>)
    requires Pooled(c, range)
    ensures |Stuck(After(c, call))| == |Stuck(c)| + if RemovalFails(c, call) then 1 else 0
  {
    CallKeepsPool(c, call, range);
  }

  /** Each ignored failure makes exactly one port so, and nothing else does. */
  lemma {:induction false} StuckPortsAreCounted(s: State, tr: Trace, range: seq<u16>)
    requires Pooled(s.control, range)
    ensures |Stuck(Run(s, tr).control)| == |Stuck(s.control)| + FailedRemovals(s, tr)
  {
    if tr.Then? {
      StuckPortsAreCounted(s, tr.before, range);
      PoolStaysSound(s, tr.before, range);
      if tr.last.ControlCall? {
        CallCountsStuck(Run(s, tr.before).control, tr.last.call, range);
      } else {
        assert Run(s, tr).control == Run(s, tr.before).control;
      }
    }
  }

  /**
   * An exposure that is confirmed took the first free port, filed the container under it, and installed the rule
   * that forwards it; one that failed left the rules and the set of free ports alone, and left its port in the map
   * if and only if the rollback was refused.
   */
  lemma ExposeAnswer(c: ControlState, call: Call)
    requires call.Expose?
    ensures var c', a := After(c, call), Answer(c, call);
            if a.Exposed? then
              && call.ip in c.containers
              && var m := c.containers[call.ip];
                 && c.free == [a.hostPort] + c'.free && a.hostPort !in c.expose
                 && c'.expose == c.expose[a.hostPort := ContainerInfo(m.ipv4, m.mac, call.port, m.ifindex)]
                 && c'.rules == c.rules + multiset{Rule(a.hostPort, m.ipv4, call.port)}
            else
              && c'.rules == c.rules && multiset(c'.free) == multiset(c.free)
              && (c'.expose == c.expose <==> !RemovalFails(c, call))
  {
    if c.free != [] {
      HeadAndTail(c.free);
    }
    if RemovalFails(c, call) {
      assert c.free[0] in After(c, call).expose;
    }
  }

  /** When an exposure gets which answer. */
  lemma ExposeAnswersIff(c: ControlState, call: Call)
    requires call.Expose?
    ensures var a, known := Answer(c, call), call.ip in c.containers;
            var inserted := known && c.free != [] && call.insertWorks && c.free[0] !in c.expose && |c.expose| < 256;
            && (a == NotFound <==> !known)
            && (a == Capacity <==> known && c.free == [])
            && (a == Internal <==> known && c.free != [] && !(inserted && call.ruleWorks))
            && (a.Exposed? <==> inserted && call.ruleWorks)
            && (a.Exposed? ==> a.hostPort == c.free[0])
  {
  }

  /**
   * With at most 256 ports and no ignored refusal, neither a taken port nor a full map ever stands in the way: an
   * exposure is confirmed exactly if the container is known, a port is free, and the kernel and iptables obey.
   */
  lemma ExposureIsConfirmedIff(s: State, tr: Trace, range: seq<u16>, call: Call)
    requires Conserved(s.control, range) && Distinct(range) && |range| <= 256 && FailedRemovals(s, tr) == 0
    requires call.Expose?
    ensures var c := Run(s, tr).control;
            Answer(c, call).Exposed? <==> call.ip in c.containers && c.free != [] && call.insertWorks && call.ruleWorks
  {
    PortsAreConservedIff(s, tr, range);
    ConservedMeans(Run(s, tr).control, range);
    ExposeAnswersIff(Run(s, tr).control, call);
  }

  /** When an unexposure gets which answer. */
  lemma UnexposeAnswersIff(c: ControlState, call: Call)
    requires call.Unexpose?
    ensures var a, found := Answer(c, call), call.hostPort in c.expose && call.lookupWorks;
            var deleted := && found && call.ruleWorks
                           && var to := c.expose[call.hostPort];
                              Rule(call.hostPort, to.containerIp, to.containerPort) in c.rules;
            && (a == NotFound <==> !found)
            && (a == Internal <==> found && !deleted)
            && (a == Unexposed <==> deleted)
  {
  }

  /** An exposed port can be unexposed whenever the lookup and iptables work, since its rule is installed. */
  lemma UnexposeAnswer(c: ControlState, call: Call)
    requires InSync(c) && call.Unexpose?
    ensures Answer(c, call) == Unexposed <==> call.hostPort in c.expose && call.lookupWorks && call.ruleWorks
    ensures if Answer(c, call).Unexposed? then
              && After(c, call).free == c.free + [call.hostPort]
              && (After(c, call).expose == c.expose - {call.hostPort} <==> !RemovalFails(c, call))
              && var to := c.expose[call.hostPort];
                 c.rules == After(c, call).rules + multiset{Rule(call.hostPort, to.containerIp, to.containerPort)}
            else
              After(c, call) == c
  {
    UnexposeAnswersIff(c, call);
    if call.hostPort in c.expose {
      var to := c.expose[call.hostPort];
      assert c.rules[Rule(call.hostPort, to.containerIp, to.containerPort)] == 1;
      assert call.hostPort !in c.expose - {call.hostPort};
    }
  }

  /** The port that an exposure takes from the front of the queue, if it gets that far. */
  function PoppedBy(c: ControlState, e: Event): seq<u16> {
    if e.ControlCall? && e.call.Expose? && e.call.ip in c.containers && c.free != [] then [c.free[0]] else []
  }

  /** The port that a call puts at the back: one that was unexposed, or one whose exposure failed. */
  function PushedBy(c: ControlState, e: Event): seq<u16> {
    if e.ControlCall? && Answer(c, e.call).Unexposed? then [e.call.hostPort]
    else if PoppedBy(c, e) != [] && Answer(c, e.call).Internal? then [c.free[0]]
    else []
  }

  function Popped(s: State, tr: Trace): seq<u16> {
    match tr
    case Start => []
    case Then(before, last, _) => Popped(s, before) + PoppedBy(Run(s, before).control, last)
  }

  function Pushed(s: State, tr: Trace): seq<u16> {
    match tr
    case Start => []
    case Then(before, last, _) => Pushed(s, before) + PushedBy(Run(s, before).control, last)
  }

  lemma CallMovesPorts(c: ControlState, e: Event)
    requires e.ControlCall?
    ensures PoppedBy(c, e) + After(c, e.call).free == c.free + PushedBy(c, e)
  {
    if PoppedBy(c, e) != [] {
      assert c.free == [c.free[0]] + c.free[1..];
    }
  }

  lemma Requeue(a: seq<u16>, out: seq<u16>, free: seq<u16>, free': seq<u16>, back: seq<u16>, q: seq<u16>, b: seq<u16>)
    requires a + free == q + b && out + free' == free + back
    ensures (a + out) + free' == q + (b + back)
  {
    assert (a + out) + free' == a + (out + free') == (a + free) + back == (q + b) + back == q + (b + back);
  }

  /** The pool is a queue: what was popped, then what is left, is what was there, then what was pushed. */
  lemma {:induction false} PoolIsFifo(s: State, tr: Trace)
    ensures Popped(s, tr) + Run(s, tr).control.free == s.control.free + Pushed(s, tr)
  {
    if tr.Then? {
      PoolIsFifo(s, tr.before);
      var c := Run(s, tr.before).control;
      var out, back := PoppedBy(c, tr.last), PushedBy(c, tr.last);
      if tr.last.ControlCall? {
        CallMovesPorts(c, tr.last);
      }
      Requeue(Popped(s, tr.before), out, c.free, Run(s, tr).control.free, back, s.control.free, Pushed(s, tr.before));
    }
  }

  /**
   * FIFO reuse: a port returned when `n` others were free is handed out again only after those `n`, in their
   * order, whatever failures push ports back in between.
   */
  lemma ReturnedPortWaitsItsTurn(s: State, tr: Trace, q: seq<u16>, p: u16)
    requires s.control.free == q + [p] && p !in q
    ensures |Popped(s, tr)| <= |q| ==> Popped(s, tr) == q[..|Popped(s, tr)|] && p !in Popped(s, tr)
    ensures |Popped(s, tr)| > |q| ==> Popped(s, tr)[..|q|] == q && Popped(s, tr)[|q|] == p
  {
    PoolIsFifo(s, tr);
    var out, all := Popped(s, tr), s.control.free + Pushed(s, tr);
    assert out == all[..|out|];
    if |out| <= |q| {
      assert all[..|out|] == q[..|out|];
    } else {
      assert out[..|q|] == all[..|q|] == q;
      assert out[|q|] == all[|q|];
    }
  }
}
