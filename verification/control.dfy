/** Exposing and unexposing container ports, with every failure path. */
module Control {
  import opened Words
  import opened Common
  import opened Ports
  import opened Datapath

  const EXPOSE_MAX := 256

  datatype ContainerMetadata = ContainerMetadata(ipv4: u32, mac: Mac, ifindex: u32)

  /** An iptables rule that forwards TCP from a host port to a container. */
  datatype Rule = Rule(hostPort: u16, containerIp: u32, containerPort: u16)

  /** The state that the write lock protects, with the forwarding rules the daemon has installed. */
  datatype ControlState = ControlState(
    free: seq<u16>,
    expose: map<u16, ContainerInfo>,
    rules: multiset<Rule>,
    containers: map<u32, ContainerMetadata>)

  /** A call, and whether the kernel map and iptables obey it when they are asked to. */
  datatype Call =
    | Expose(ip: u32, port: u16, insertWorks: bool, ruleWorks: bool, removeWorks: bool)
    | Unexpose(hostPort: u16, lookupWorks: bool, ruleWorks: bool, removeWorks: bool)

  datatype Response = Exposed(hostPort: u16) | Unexposed | NotFound | Capacity | Internal

  function RuleFor(hostPort: u16, info: ContainerInfo): Rule {
    Rule(hostPort, info.containerIp, info.containerPort)
  }

  function InfoFor(m: ContainerMetadata, port: u16): ContainerInfo {
    ContainerInfo(m.ipv4, m.mac, port, m.ifindex)
  }

  /** The first free port goes to the back of the queue. */
  function Rotated(q: seq<u16>): seq<u16>
    requires q != []
  {
    q[1..] + [q[0]]
  }

  /** The map insertion of an exposure succeeds: `BPF_NOEXIST` and room left. */
  predicate CanInsert(s: ControlState, c: Call)
    requires c.Expose? && s.free != []
  {
    c.insertWorks && s.free[0] !in s.expose && |s.expose| < EXPOSE_MAX
  }

  /** The exposed port is found, and its forwarding rule is deleted. */
  predicate CanUnexpose(s: ControlState, c: Call)
    requires c.Unexpose?
  {
    c.hostPort in s.expose && c.lookupWorks && c.ruleWorks && RuleFor(c.hostPort, s.expose[c.hostPort]) in s.rules
  }

  /** The call ignores that the map refused to remove its port, as a rollback or at the end of an unexposure. */
  predicate RemovalFails(s: ControlState, c: Call) {
    && !c.removeWorks
    && match c
       case Expose(ip, _, _, ruleWorks, _) => ip in s.containers && s.free != [] && CanInsert(s, c) && !ruleWorks
       case Unexpose(_, _, _, _) => CanUnexpose(s, c)
  }

  function After(s: ControlState, c: Call): ControlState {
    match c
    case Expose(ip, port, _, ruleWorks, removeWorks) =>
      if ip !in s.containers || s.free == [] then s
      else if !CanInsert(s, c) then s.(free := Rotated(s.free))
      else
        var info := InfoFor(s.containers[ip], port);
        var inserted := s.expose[s.free[0] := info];
        if ruleWorks then
          s.(free := s.free[1..], expose := inserted, rules := s.rules + multiset{RuleFor(s.free[0], info)})
        else
          s.(free := Rotated(s.free), expose := if removeWorks then s.expose else inserted)
    case Unexpose(hostPort, _, _, removeWorks) =>
      if !CanUnexpose(s, c) then s
      else
        s.(free := s.free + [hostPort],
           expose := if removeWorks then s.expose - {hostPort} else s.expose,
           rules := s.rules - multiset{RuleFor(hostPort, s.expose[hostPort])})
  }

  function Answer(s: ControlState, c: Call): Response {
    match c
    case Expose(ip, _, _, ruleWorks, _) =>
      if ip !in s.containers then NotFound
      else if s.free == [] then Capacity
      else if CanInsert(s, c) && ruleWorks then Exposed(s.free[0])
      else Internal
    case Unexpose(hostPort, lookupWorks, _, _) =>
      if hostPort !in s.expose || !lookupWorks then NotFound
      else if CanUnexpose(s, c) then Unexposed
      else Internal
  }

  /** The daemon's shared state. */
  class AppState {
    const maps: KernelMaps
    const portAllocator: PortAllocator
    const containerMetas: map<u32, ContainerMetadata>
    var rules: multiset<Rule>

    constructor (maps: KernelMaps, portAllocator: PortAllocator, containerMetas: map<u32, ContainerMetadata>)
      ensures this.maps == maps && this.portAllocator == portAllocator && this.containerMetas == containerMetas
      ensures rules == multiset{}
    {
      this.maps, this.portAllocator, this.containerMetas := maps, portAllocator, containerMetas;
      rules := multiset{};
    }

    ghost function State(): ControlState
      reads this, maps, portAllocator
    {
      ControlState(portAllocator.ports, maps.expose, rules, containerMetas)
    }

    /** `iptables -A`: it appends the rule, or fails without effect. */
    method AddIptablesRule(rule: Rule, works: bool) returns (ok: bool)
      modifies this`rules
      ensures ok == works && rules == if ok then old(rules) + multiset{rule} else old(rules)
    {
      if works {
        rules := rules + multiset{rule};
      }
      return works;
    }

    /** `iptables -D`: it deletes one matching rule; without a match or on an error it fails without effect. */
    method RemoveIptablesRule(rule: Rule, works: bool) returns (ok: bool)
      modifies this`rules
      ensures ok == (works && rule in old(rules))
      ensures rules == if ok then old(rules) - multiset{rule} else old(rules)
    {
      ok := works && rule in rules;
      if ok {
        rules := rules - multiset{rule};
      }
    }

    method ExposePort(ip: u32, port: u16, insertWorks: bool, ruleWorks: bool, removeWorks: bool) returns (r: Response)
      modifies this`rules, maps`expose, portAllocator
      ensures State() == After(old(State()), Expose(ip, port, insertWorks, ruleWorks, removeWorks))
      ensures r == Answer(old(State()), Expose(ip, port, insertWorks, ruleWorks, removeWorks))
    {
      if ip !in containerMetas {
        return NotFound;
      }
      var container := containerMetas[ip];
      var containerInfo := ContainerInfo(container.ipv4, container.mac, port, container.ifindex);

      var next := portAllocator.AllocateNext();
      if next.None? {
        return Capacity;
      }
      var allocatedPort := next.value;

      var inserted := insertWorks && allocatedPort !in maps.expose && |maps.expose| < EXPOSE_MAX;
      if !inserted {
        portAllocator.Deallocate(allocatedPort);
        return Internal;
      }
      maps.expose := maps.expose[allocatedPort := containerInfo];

      var added := AddIptablesRule(Rule(allocatedPort, containerInfo.containerIp, containerInfo.containerPort), ruleWorks);
      if !added {
        if removeWorks {
          maps.expose := maps.expose - {allocatedPort};
        }
        portAllocator.Deallocate(allocatedPort);
        return Internal;
      }
      return Exposed(allocatedPort);
    }

    method UnexposePort(hostPort: u16, lookupWorks: bool, ruleWorks: bool, removeWorks: bool) returns (r: Response)
      modifies this`rules, maps`expose, portAllocator
      ensures State() == After(old(State()), Unexpose(hostPort, lookupWorks, ruleWorks, removeWorks))
      ensures r == Answer(old(State()), Unexpose(hostPort, lookupWorks, ruleWorks, removeWorks))
    {
      if hostPort !in maps.expose || !lookupWorks {
        return NotFound;
      }
      var info := maps.expose[hostPort];

      var removed := RemoveIptablesRule(Rule(hostPort, info.containerIp, info.containerPort), ruleWorks);
      if !removed {
        return Internal;
      }
      if removeWorks {
        maps.expose := maps.expose - {hostPort};
      }
      portAllocator.Deallocate(hostPort);
      return Unexposed;
    }
  }

  /** Inserting into the device map, which overwrites; a new key needs room, and the kernel may refuse. */
  method InsertDevice(maps: KernelMaps, key: u32, ifindex: u32, works: bool) returns (ok: bool)
    modifies maps`redirect
    ensures ok <==> works && (key in old(maps.redirect) || |old(maps.redirect)| < REDIRECT_MAX)
    ensures maps.redirect == if ok then old(maps.redirect)[key := ifindex] else old(maps.redirect)
  {
    ok := works && (key in maps.redirect || |maps.redirect| < REDIRECT_MAX);
    if ok {
      maps.redirect := maps.redirect[key := ifindex];
    }
  }

  /** The host-side device of every container. */
  function VethDevices(containers: map<u32, ContainerMetadata>): map<u32, u32> {
    map ip | ip in containers :: containers[ip].ifindex
  }

  /** The device map of a started daemon: one device per container, and the NIC at key 0. */
  function DeviceMap(containers: map<u32, ContainerMetadata>, nicIfindex: u32): map<u32, u32> {
    VethDevices(containers)[0 := nicIfindex]
  }

  /** The entries for the containers in `order`. */
  function Devices(order: seq<u32>, containers: map<u32, ContainerMetadata>): map<u32, u32>
    requires forall ip :: ip in order ==> ip in containers
  {
    map ip | ip in order :: containers[ip].ifindex
  }

  lemma OneMoreDevice(order: seq<u32>, containers: map<u32, ContainerMetadata>, i: nat)
    requires i < |order| && forall ip :: ip in order ==> ip in containers
    ensures Devices(order[..i + 1], containers) == Devices(order[..i], containers)[order[i] := containers[order[i]].ifindex]
  {
  }

  /**
   * One device per container, up to the first insertion that fails: `n` are inserted. It succeeds exactly when
   * the kernel accepts every insertion and all containers fit, and then maps every container.
   */
  method SetupDevmap(maps: KernelMaps, order: seq<u32>, containers: map<u32, ContainerMetadata>, works: seq<bool>)
    returns (ok: bool, n: nat)
    requires |works| == |order| && forall ip :: ip in order <==> ip in containers
    requires forall ip :: ip in containers ==> containers[ip].ipv4 == ip
    requires maps.redirect == map[]
    modifies maps`redirect
    ensures n <= |order| && maps.redirect == Devices(order[..n], containers)
    ensures ok <==> n == |order|
    ensures ok <==> |containers| <= REDIRECT_MAX && forall i :: 0 <= i < |works| ==> works[i]
    ensures ok ==> maps.redirect == VethDevices(containers)
    ensures !ok ==> !works[n] || (order[n] !in maps.redirect && |maps.redirect| == REDIRECT_MAX)
  {
    for i := 0 to |order|
      invariant maps.redirect == Devices(order[..i], containers)
      invariant |maps.redirect| <= REDIRECT_MAX
      invariant forall j :: 0 <= j < i ==> works[j]
    {
      OneMoreDevice(order, containers, i);
      assert order[i] in order;
      var container := containers[order[i]];
      var inserted := InsertDevice(maps, container.ipv4, container.ifindex, works[i]);
      if !inserted {
        if works[i] {
          NoRoom(maps.redirect, containers, order[i]);
        }
        return false, i;
      }
    }
    assert order[..|order|] == order;
    AllDevices(order, containers);
    return true, |order|;
  }

  lemma AllDevices(order: seq<u32>, containers: map<u32, ContainerMetadata>)
    requires forall ip :: ip in order <==> ip in containers
    ensures Devices(order, containers) == VethDevices(containers)
    ensures |Devices(order, containers)| == |containers|
  {
    var d := Devices(order, containers);
    assert d.Keys == containers.Keys;
    assert |d| == |d.Keys| && |containers| == |containers.Keys|;
  }

  lemma NoRoom(redirect: map<u32, u32>, containers: map<u32, ContainerMetadata>, key: u32)
    requires redirect.Keys <= containers.Keys && key in containers && key !in redirect
    ensures |redirect| < |containers|
  {
    SubsetSize(redirect.Keys + {key}, containers.Keys);
  }

  lemma SubsetSize<T>(a: set<T>, b: set<T>)
    requires a <= b
    ensures |a| <= |b|
  {
    assert b == a + (b - a);
  }
}
