/** The controller's own in-process agent: a second, independent implementation of the plan
    language, with flat ports, and the proof that it simulates the agent's machine. */
module AgentNode {
  import opened Common
  import opened EdgeServices
  import opened PlanMachine
  import Ordering
  import O = OvsState
  import S = OvsStore

  // A port carries its single interface's type and options itself.
  datatype Port = Port(
    name: string, portType: string, options: Dict, tag: Option<int>, trunks: seq<int>, externalIds: Dict)

  datatype Bridge = Bridge(name: string, datapathType: string, ports: map<string, Port>, externalIds: Dict)

  datatype Node = Node(
    bridges: map<string, Bridge>,
    dhcpScopes: map<string, DhcpScopeSpec>,
    dnsZones: map<string, DnsZoneSpec>,
    natRules: map<string, NatRuleSpec>,
    firewallPolicies: map<string, FirewallPolicySpec>)

  const EMPTY_NODE := Node(map[], map[], map[], map[], map[])

  // ---- Steps --------------------------------------------------------------------

  function EnsureBridge(n: Node, name: string, datapathType: string, externalIds: Dict): (bool, Node) {
    if name !in n.bridges then
      (true, n.(bridges := n.bridges[name := Bridge(name, datapathType, map[], externalIds)]))
    else
      var b := n.bridges[name];
      (b.datapathType != datapathType || b.externalIds != externalIds,
       n.(bridges := n.bridges[name := b.(datapathType := datapathType, externalIds := externalIds)]))
  }

  /** The field-by-field comparison; names are not compared. */
  predicate SamePort(a: Port, b: Port) {
    && a.portType == b.portType && a.options == b.options && a.tag == b.tag
    && a.trunks == b.trunks && a.externalIds == b.externalIds
  }

  function EnsurePort(n: Node, bridge: string, port: Port): Outcome<Node> {
    if bridge !in n.bridges then Failed(bridge)
    else
      var b := n.bridges[bridge];
      if port.name in b.ports && SamePort(b.ports[port.name], port) then Applied(false, n)
      else Applied(true, n.(bridges := n.bridges[bridge := b.(ports := b.ports[port.name := port])]))
  }

  function NewPort(name: string, portType: string, options: Dict, tag: Option<int>,
                   trunks: seq<int>, externalIds: Dict): Port {
    Port(name, portType, options, tag, Ordering.Sort(O.IntLeq, trunks), externalIds)
  }

  function DeletePort(n: Node, bridge: string, name: string): Outcome<Node> {
    if bridge !in n.bridges then Failed(bridge)
    else
      var b := n.bridges[bridge];
      Applied(name in b.ports, n.(bridges := n.bridges[bridge := b.(ports := Drop(b.ports, name))]))
  }

  function AgentStep(n: Node, step: Step): Outcome<Node> {
    match step
    case EnsureBridgeStep(name, datapathType, externalIds) =>
      var r := EnsureBridge(n, name, datapathType, externalIds); Applied(r.0, r.1)
    case DeleteBridgeStep(name) => Applied(name in n.bridges, n.(bridges := Drop(n.bridges, name)))
    case EnsurePortStep(bridge, name, portType, options, tag, trunks, externalIds) =>
      EnsurePort(n, bridge, NewPort(name, portType, options, tag, trunks, externalIds))
    case DeletePortStep(bridge, name) => DeletePort(n, bridge, name)
    case EnsureVxlanPortStep(bridge, name, vni, remoteIp, localIp, dstPort, mtu, externalIds) =>
      EnsurePort(n, bridge,
        NewPort(name, "vxlan", S.VxlanOptions(vni, remoteIp, localIp, dstPort, mtu), None, [], externalIds))
    case EnsureDhcpScopeStep(spec) =>
      var r := Put(n.dhcpScopes, spec.scopeId, spec); Applied(r.0, n.(dhcpScopes := r.1))
    case DeleteDhcpScopeStep(id) =>
      var r := Pop(n.dhcpScopes, id); Applied(r.0, n.(dhcpScopes := r.1))
    case EnsureDnsZoneStep(spec) =>
      var r := Put(n.dnsZones, spec.zone, spec); Applied(r.0, n.(dnsZones := r.1))
    case DeleteDnsZoneStep(zone) =>
      var r := Pop(n.dnsZones, zone); Applied(r.0, n.(dnsZones := r.1))
    case EnsureNatRuleStep(spec) =>
      var r := Put(n.natRules, spec.ruleId, spec); Applied(r.0, n.(natRules := r.1))
    case DeleteNatRuleStep(id) =>
      var r := Pop(n.natRules, id); Applied(r.0, n.(natRules := r.1))
    case EnsureFirewallPolicyStep(spec) =>
      var r := Put(n.firewallPolicies, spec.policyId, spec); Applied(r.0, n.(firewallPolicies := r.1))
    case DeleteFirewallPolicyStep(id) =>
      var r := Pop(n.firewallPolicies, id); Applied(r.0, n.(firewallPolicies := r.1))
  }

  function AgentAfter(n: Node, step: Step): Node {
    match AgentStep(n, step)
    case Applied(_, m) => m
    case Failed(_) => n
  }

  function AgentExec(n: Node, steps: seq<Step>): Node {
    if steps == [] then n else AgentAfter(AgentExec(n, steps[..|steps| - 1]), steps[|steps| - 1])
  }

  function AgentResults(n: Node, steps: seq<Step>): (r: seq<StepResult>)
    ensures |r| == |steps|
  {
    if steps == [] then []
    else
      var k := |steps| - 1;
      AgentResults(n, steps[..k]) + [ResultOf(steps[k], AgentStep(AgentExec(n, steps[..k]), steps[k]))]
  }

  function AgentRun(n: Node, plan: Plan): (PlanResult, Node) {
    var rs := AgentResults(n, plan.steps);
    (PlanResult(plan.planId, AllOk(rs), rs), AgentExec(n, plan.steps))
  }

  // ---- The agent store a node stands for ---------------------------------------------

  function AsPort(p: Port): S.Port {
    S.Port(p.name, p.tag, p.trunks, p.externalIds, map[p.name := S.Iface(p.name, p.portType, p.options)])
  }

  function AsPorts(ps: map<string, Port>): map<string, S.Port> {
    map k | k in ps :: AsPort(ps[k])
  }

  function AsBridge(b: Bridge): S.Bridge {
    S.Bridge(b.name, b.datapathType, b.externalIds, AsPorts(b.ports))
  }

  function AsBridges(bs: map<string, Bridge>): S.Bridges {
    map k | k in bs :: AsBridge(bs[k])
  }

  function AsStore(n: Node): Store {
    Store(AsBridges(n.bridges), n.dhcpScopes, n.dnsZones, n.natRules, n.firewallPolicies)
  }

  ghost predicate WfNode(n: Node) {
    forall b | b in n.bridges ::
      n.bridges[b].name == b && forall p | p in n.bridges[b].ports :: n.bridges[b].ports[p].name == p
  }

  lemma SamePortIsPortsEqual(a: Port, b: Port)
    requires a.name == b.name
    ensures SamePort(a, b) <==> S.PortsEqual(AsPort(a), AsPort(b))
    ensures SamePort(a, b) <==> a == b
  {
    if S.PortsEqual(AsPort(a), AsPort(b)) { assert a.name in AsPort(a).interfaces; }
  }

  lemma UpdatePort(b: Bridge, name: string, p: Port)
    ensures AsBridge(b.(ports := b.ports[name := p])) ==
            AsBridge(b).(ports := AsBridge(b).ports[name := AsPort(p)])
    ensures AsBridge(b.(ports := Drop(b.ports, name))) == AsBridge(b).(ports := Drop(AsBridge(b).ports, name))
  {
    assert AsPorts(b.ports[name := p]) == AsPorts(b.ports)[name := AsPort(p)];
    assert AsPorts(Drop(b.ports, name)) == Drop(AsPorts(b.ports), name);
  }

  lemma UpdateBridge(bs: map<string, Bridge>, name: string, b: Bridge)
    ensures AsBridges(bs[name := b]) == AsBridges(bs)[name := AsBridge(b)]
    ensures AsBridges(Drop(bs, name)) == Drop(AsBridges(bs), name)
  {
  }

  ghost predicate Simulates(n: Node, step: Step) {
    match AgentStep(n, step)
    case Applied(changed, m) => ApplyStep(AsStore(n), step) == Applied(changed, AsStore(m)) && WfNode(m)
    case Failed(bridge) => ApplyStep(AsStore(n), step) == Failed(bridge)
  }

  lemma SetPorts(n: Node, bridge: string, ports: map<string, Port>)
    requires WfNode(n) && bridge in n.bridges && forall p | p in ports :: ports[p].name == p
    ensures var b := n.bridges[bridge].(ports := ports);
            WfNode(n.(bridges := n.bridges[bridge := b])) &&
            AsBridges(n.bridges[bridge := b]) == AsBridges(n.bridges)[bridge := AsBridge(b)]
  {
    UpdateBridge(n.bridges, bridge, n.bridges[bridge].(ports := ports));
  }

  lemma SimulatesEnsurePort(n: Node, bridge: string, port: Port)
    requires WfNode(n)
    ensures match EnsurePort(n, bridge, port)
            case Applied(changed, m) =>
              && S.EnsurePort(AsStore(n).bridges, bridge, AsPort(port)) == Some((changed, AsStore(m).bridges))
              && m == n.(bridges := m.bridges) && WfNode(m)
            case Failed(b) =>
              b == bridge && S.EnsurePort(AsStore(n).bridges, bridge, AsPort(port)) == None
  {
    if bridge in n.bridges {
      var b := n.bridges[bridge];
      if port.name in b.ports && SamePort(b.ports[port.name], port) {
        SamePortIsPortsEqual(b.ports[port.name], port);
      } else {
        if port.name in b.ports { SamePortIsPortsEqual(b.ports[port.name], port); }
        UpdatePort(b, port.name, port);
        SetPorts(n, bridge, b.ports[port.name := port]);
      }
    }
  }

  lemma SimulatesDeletePort(n: Node, bridge: string, name: string)
    requires WfNode(n)
    ensures Simulates(n, DeletePortStep(bridge, name))
  {
    if bridge in n.bridges {
      var b := n.bridges[bridge];
      UpdatePort(b, name, Port(name, "", map[], None, [], map[]));
      SetPorts(n, bridge, Drop(b.ports, name));
    }
  }

  lemma SimulatesEnsureBridge(n: Node, name: string, dp: string, ids: Dict)
    requires WfNode(n)
    ensures Simulates(n, EnsureBridgeStep(name, dp, ids))
  {
    var b := if name in n.bridges then n.bridges[name].(datapathType := dp, externalIds := ids)
             else Bridge(name, dp, map[], ids);
    UpdateBridge(n.bridges, name, b);
    assert AsPorts(map[]) == map[];
    assert EnsureBridge(n, name, dp, ids).1 == n.(bridges := n.bridges[name := b]);
  }

  lemma SimulatesDeleteBridge(n: Node, name: string)
    requires WfNode(n)
    ensures Simulates(n, DeleteBridgeStep(name))
  {
    UpdateBridge(n.bridges, name, Bridge(name, "", map[], map[]));
  }

  lemma SimulatesEdgeStep(n: Node, step: Step)
    requires WfNode(n) && !IsOvsStep(step)
    ensures Simulates(n, step)
  {
  }

  /** One step of the controller's agent is one step of the agent, with the same flags. */
  lemma StepSimulates(n: Node, step: Step)
    requires WfNode(n)
    ensures Simulates(n, step)
  {
    match step
    case EnsurePortStep(bridge, name, portType, options, tag, trunks, externalIds) =>
      SimulatesEnsurePort(n, bridge, NewPort(name, portType, options, tag, trunks, externalIds));
    case EnsureVxlanPortStep(bridge, name, vni, remoteIp, localIp, dstPort, mtu, externalIds) =>
      SimulatesEnsurePort(n, bridge,
        NewPort(name, "vxlan", S.VxlanOptions(vni, remoteIp, localIp, dstPort, mtu), None, [], externalIds));
    case EnsureBridgeStep(name, dp, ids) => SimulatesEnsureBridge(n, name, dp, ids);
    case DeleteBridgeStep(name) => SimulatesDeleteBridge(n, name);
    case DeletePortStep(bridge, name) => SimulatesDeletePort(n, bridge, name);
    case _ => SimulatesEdgeStep(n, step);
  }

  lemma {:induction false} StepsSimulate(n: Node, steps: seq<Step>)
    requires WfNode(n)
    ensures WfNode(AgentExec(n, steps))
    ensures AsStore(AgentExec(n, steps)) == Exec(AsStore(n), steps)
    ensures AgentResults(n, steps) == Results(AsStore(n), steps)
  {
    if steps == [] {
    } else {
      var k := |steps| - 1;
      StepsSimulate(n, steps[..k]);
      StepSimulates(AgentExec(n, steps[..k]), steps[k]);
    }
  }

  /** Substitutability: from related states every plan gives the same result, flag for flag,
      and related end states. */
  lemma RunSimulates(n: Node, plan: Plan)
    requires WfNode(n)
    ensures AgentRun(n, plan).0 == Run(AsStore(n), plan).0
    ensures AsStore(AgentRun(n, plan).1) == Run(AsStore(n), plan).1
    ensures WfNode(AgentRun(n, plan).1)
  {
    StepsSimulate(n, plan.steps);
  }

  // ---- Snapshots keep bridges only -----------------------------------------------------

  datatype PortDoc = PortDoc(
    name: string, portType: string, options: Dict, tag: Option<int>, trunks: seq<int>, externalIds: Dict)

  datatype BridgeDoc = BridgeDoc(name: string, datapathType: string, externalIds: Dict, ports: seq<PortDoc>)

  /** `_dump`: no edge services. The state hash is taken over it, list order included. */
  datatype Payload = Payload(bridges: seq<BridgeDoc>)

  function PortToDict(p: Port): PortDoc {
    PortDoc(p.name, p.portType, p.options, p.tag, p.trunks, p.externalIds)
  }

  ghost predicate IsPortDoc(d: PortDoc, p: Port) { d == PortToDict(p) }

  ghost predicate IsBridgeDoc(d: BridgeDoc, b: Bridge) {
    && d.name == b.name && d.datapathType == b.datapathType && d.externalIds == b.externalIds
    && S.Renders(d.ports, b.ports, IsPortDoc)
  }

  ghost predicate IsDump(d: Payload, n: Node) { S.Renders(d.bridges, n.bridges, IsBridgeDoc) }

  /** `value or default` on strings: the empty string takes the default too. */
  function NonEmpty(s: string, default: string): string { if s == "" then default else s }

  function ReadPort(d: PortDoc): Option<(string, Port)> {
    Some((d.name, Port(d.name, NonEmpty(d.portType, "internal"), d.options, d.tag, d.trunks, d.externalIds)))
  }

  function ReadBridge(d: BridgeDoc): Option<(string, Bridge)> {
    match S.ReadNamed(d.ports, ReadPort)
    case None => None
    case Some(ps) => Some((d.name, Bridge(d.name, NonEmpty(d.datapathType, "system"), ps, d.externalIds)))
  }

  /** `_load` */
  function Load(d: Payload): Node {
    EMPTY_NODE.(bridges := OrElse(S.ReadNamed(d.bridges, ReadBridge), map[]))
  }

  /** What a snapshot and restore make of a node. */
  function LoadedPort(p: Port): Port { p.(portType := NonEmpty(p.portType, "internal")) }

  function LoadedBridge(b: Bridge): Bridge {
    b.(datapathType := NonEmpty(b.datapathType, "system"), ports := map k | k in b.ports :: LoadedPort(b.ports[k]))
  }

  function Loaded(n: Node): Node {
    EMPTY_NODE.(bridges := map k | k in n.bridges :: LoadedBridge(n.bridges[k]))
  }

  /** Reading a rendering back maps every value through what reading does to it. */
  lemma ReadAllMapped<D(!new), V(!new)>(ds: seq<D>, m: map<string, V>, w: map<string, V>, rel: (D, V) -> bool,
                                        read: D -> Option<(string, V)>)
    requires S.Renders(ds, m, rel) && forall k :: k in m <==> k in w
    requires forall k, d | k in m && rel(d, m[k]) :: read(d) == Some((k, w[k]))
    ensures S.ReadNamed(ds, read) == Some(w)
  {
    var ks :| S.RendersInOrder(ks, ds, m, rel);
    S.ReadRendered(ks, ds, w, read);
    assert forall k :: k in ks <==> k in w;
    S.KeepAll(w, ks);
  }

  lemma LoadDump(d: Payload, n: Node)
    requires WfNode(n) && IsDump(d, n)
    ensures Load(d) == Loaded(n)
  {
    forall k, bd | k in n.bridges && IsBridgeDoc(bd, n.bridges[k])
      ensures ReadBridge(bd) == Some((k, LoadedBridge(n.bridges[k])))
    {
      var b := n.bridges[k];
      ReadAllMapped(bd.ports, b.ports, LoadedBridge(b).ports, IsPortDoc, ReadPort);
    }
    ReadAllMapped(d.bridges, n.bridges, Loaded(n).bridges, IsBridgeDoc, ReadBridge);
  }

  predicate NoEdgeServices(n: Node) {
    n.dhcpScopes == map[] && n.dnsZones == map[] && n.natRules == map[] && n.firewallPolicies == map[]
  }

  predicate NoEmptyTypes(n: Node) {
    forall b | b in n.bridges ::
      n.bridges[b].datapathType != "" && forall p | p in n.bridges[b].ports :: n.bridges[b].ports[p].portType != ""
  }

  /** A restore gives back the snapshotted node exactly when it had no edge services and no
      empty type name; anything else is lost or replaced by a default. */
  lemma RestoreIsExactIff(d: Payload, n: Node)
    requires WfNode(n) && IsDump(d, n)
    ensures Load(d) == n <==> NoEdgeServices(n) && NoEmptyTypes(n)
  {
    LoadDump(d, n);
    if NoEdgeServices(n) && NoEmptyTypes(n) {
      forall k | k in n.bridges ensures LoadedBridge(n.bridges[k]) == n.bridges[k] {
        assert LoadedBridge(n.bridges[k]).ports == n.bridges[k].ports;
      }
      assert Loaded(n).bridges == n.bridges;
    }
    if Loaded(n) == n {
      forall b | b in n.bridges
        ensures n.bridges[b].datapathType != ""
        ensures forall p | p in n.bridges[b].ports :: n.bridges[b].ports[p].portType != ""
      {
        assert Loaded(n).bridges[b] == LoadedBridge(n.bridges[b]) == n.bridges[b];
        forall p | p in n.bridges[b].ports ensures n.bridges[b].ports[p].portType != "" {
          assert LoadedBridge(n.bridges[b]).ports[p] == LoadedPort(n.bridges[b].ports[p]);
        }
      }
    }
  }

  /** Where the two agents part: after the same snapshot, the same plans and a restore they are
      still related exactly when no edge service is left and no snapshotted type was empty. */
  lemma RestoresAgreeIff(d: Payload, snapshotted: Node, now: Node)
    requires WfNode(snapshotted) && IsDump(d, snapshotted)
    ensures AsStore(Load(d)) == AsStore(now).(bridges := AsStore(snapshotted).bridges)
            <==> NoEdgeServices(now) && NoEmptyTypes(snapshotted)
  {
    LoadDump(d, snapshotted);
    LoadedViewIff(EMPTY_NODE.(bridges := snapshotted.bridges));
  }

  lemma LoadedViewIff(n: Node)
    ensures AsBridges(Loaded(n).bridges) == AsBridges(n.bridges) <==> NoEmptyTypes(n)
  {
    if NoEmptyTypes(n) {
      forall k | k in n.bridges ensures LoadedBridge(n.bridges[k]) == n.bridges[k] {
        assert LoadedBridge(n.bridges[k]).ports == n.bridges[k].ports;
      }
      assert Loaded(n).bridges == n.bridges;
    }
    if AsBridges(Loaded(n).bridges) == AsBridges(n.bridges) {
      forall b | b in n.bridges
        ensures n.bridges[b].datapathType != ""
        ensures forall p | p in n.bridges[b].ports :: n.bridges[b].ports[p].portType != ""
      {
        TypesSurvive(Loaded(n).bridges[b], n.bridges[b]);
      }
    }
  }

  lemma TypesSurvive(loaded: Bridge, b: Bridge)
    requires loaded == LoadedBridge(b) && AsBridge(loaded) == AsBridge(b)
    ensures b.datapathType != "" && forall p | p in b.ports :: b.ports[p].portType != ""
  {
    forall p | p in b.ports ensures b.ports[p].portType != "" {
      var port := b.ports[p];
      assert AsBridge(loaded).ports[p] == AsPort(LoadedPort(port)) == AsPort(port);
      assert AsPort(port).interfaces[port.name].ifaceType == port.portType;
      assert AsPort(LoadedPort(port)).interfaces[port.name].ifaceType == LoadedPort(port).portType;
    }
  }

  lemma LoadedIsWf(d: Payload)
    ensures WfNode(Load(d))
  {
    forall bd | bd in d.bridges && ReadBridge(bd).Some?
      ensures GoodBridge(ReadBridge(bd).value.0, ReadBridge(bd).value.1)
    {
      S.ReadNamedWf(bd.ports, ReadPort, GoodPort);
    }
    S.ReadNamedWf(d.bridges, ReadBridge, GoodBridge);
  }

  ghost predicate GoodPort(k: string, p: Port) { p.name == k }
  ghost predicate GoodBridge(k: string, b: Bridge) {
    b.name == k && forall p | p in b.ports :: b.ports[p].name == p
  }
}
