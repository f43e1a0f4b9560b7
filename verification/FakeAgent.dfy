/** The controller's in-process agent as objects: a node's state is a mutable object holding
    bridge objects, and one agent holds the states of many nodes. */
module FakeAgent {
  import opened Common
  import opened EdgeServices
  import opened PlanMachine
  import opened AgentNode
  import S = OvsStore
  import Text

  class BridgeObject {
    var name: string
    var datapathType: string
    var ports: map<string, Port>
    var externalIds: Dict
    ghost const owner: NodeState // the node whose dictionary holds this bridge

    constructor (b: Bridge, ghost owner: NodeState)
      ensures Value() == b && this.owner == owner
    {
      this.owner := owner;
      name, datapathType, ports, externalIds := b.name, b.datapathType, b.ports, b.externalIds;
    }

    function Value(): Bridge
      reads this
    {
      Bridge(name, datapathType, ports, externalIds)
    }
  }

  class NodeState {
    var bridges: map<string, BridgeObject>
    var dhcpScopes: map<string, DhcpScopeSpec>
    var dnsZones: map<string, DnsZoneSpec>
    var natRules: map<string, NatRuleSpec>
    var firewallPolicies: map<string, FirewallPolicySpec>

    constructor ()
      ensures Valid() && Value() == EMPTY_NODE && fresh(Repr())
    {
      bridges, dhcpScopes, dnsZones, natRules, firewallPolicies := map[], map[], map[], map[], map[];
    }

    ghost function Repr(): set<object>
      reads this
    {
      {this} + bridges.Values
    }

    /** Names do not share bridge objects, and neither do nodes. */
    ghost predicate Valid()
      reads this
    {
      && (forall j, k | j in bridges && k in bridges && j != k :: bridges[j] != bridges[k])
      && forall k | k in bridges :: bridges[k].owner == this
    }

    ghost function Bridges(): map<string, Bridge>
      reads this, bridges.Values
    {
      map k | k in bridges :: bridges[k].Value()
    }

    ghost function Value(): Node
      reads this, bridges.Values
    {
      Node(Bridges(), dhcpScopes, dnsZones, natRules, firewallPolicies)
    }

    method EnsureBridge(name: string, datapathType: string, externalIds: Dict) returns (changed: bool)
      requires Valid()
      modifies Repr()
      ensures Valid() && fresh(Repr() - old(Repr()))
      ensures (changed, Value()) == AgentNode.EnsureBridge(old(Value()), name, datapathType, externalIds)
    {
      ghost var before := Bridges();
      if name !in bridges {
        var b := new BridgeObject(Bridge(name, datapathType, map[], externalIds), this);
        bridges := bridges[name := b];
        changed := true;
      } else {
        var existing := bridges[name];
        changed := false;
        if existing.datapathType != datapathType {
          existing.datapathType := datapathType;
          changed := true;
        }
        if existing.externalIds != externalIds {
          existing.externalIds := externalIds;
          changed := true;
        }
      }
      assert Bridges() == before[name := bridges[name].Value()];
    }

    method EnsurePort(bridge: string, name: string, portType: string, options: Dict, tag: Option<int>,
                      trunks: seq<int>, externalIds: Dict)
      returns (r: Result<bool, string>)
      requires Valid()
      modifies Repr()
      ensures Valid() && Repr() == old(Repr())
      ensures match AgentNode.EnsurePort(old(Value()), bridge,
                      NewPort(name, portType, options, tag, trunks, externalIds))
              case Applied(changed, n) => r == Ok(changed) && Value() == n
              case Failed(b) => r == Err(b) && Value() == old(Value())
    {
      if bridge !in bridges { return Err(bridge); }
      var br := bridges[bridge];
      ghost var before := Bridges();
      var port := NewPort(name, portType, options, tag, trunks, externalIds);
      if name !in br.ports {
        br.ports := br.ports[name := port];
      } else {
        if SamePort(br.ports[name], port) { return Ok(false); }
        br.ports := br.ports[name := port];
      }
      assert Bridges() == before[bridge := br.Value()];
      return Ok(true);
    }

    method DeletePort(bridge: string, name: string) returns (r: Result<bool, string>)
      requires Valid()
      modifies Repr()
      ensures Valid() && Repr() == old(Repr())
      ensures match AgentNode.DeletePort(old(Value()), bridge, name)
              case Applied(changed, n) => r == Ok(changed) && Value() == n
              case Failed(b) => r == Err(b) && Value() == old(Value())
    {
      if bridge !in bridges { return Err(bridge); }
      var br := bridges[bridge];
      ghost var before := Bridges();
      r := Ok(name in br.ports);
      br.ports := Drop(br.ports, name);
      assert Bridges() == before[bridge := br.Value()];
    }

    method ApplyOvsStep(step: Step) returns (r: Result<bool, string>)
      requires Valid() && IsOvsStep(step)
      modifies Repr()
      ensures Valid() && fresh(Repr() - old(Repr()))
      ensures match AgentStep(old(Value()), step)
              case Applied(changed, n) => r == Ok(changed) && Value() == n
              case Failed(b) => r == Err(b) && Value() == old(Value())
    {
      match step {
        case EnsureBridgeStep(name, datapathType, externalIds) =>
          var changed := EnsureBridge(name, datapathType, externalIds);
          return Ok(changed);
        case DeleteBridgeStep(name) =>
          var changed := name in bridges;
          ghost var before := Bridges();
          bridges := Drop(bridges, name);
          assert Bridges() == Drop(before, name);
          return Ok(changed);
        case EnsurePortStep(bridge, name, portType, options, tag, trunks, externalIds) =>
          r := EnsurePort(bridge, name, portType, options, tag, trunks, externalIds);
        case DeletePortStep(bridge, name) =>
          r := DeletePort(bridge, name);
        case EnsureVxlanPortStep(bridge, name, vni, remoteIp, localIp, dstPort, mtu, externalIds) =>
          r := EnsurePort(bridge, name, "vxlan", S.VxlanOptions(vni, remoteIp, localIp, dstPort, mtu),
                          None, [], externalIds);
      }
    }

    method ApplyNamingStep(step: Step) returns (changed: bool)
      requires IsNamingStep(step)
      modifies this`dhcpScopes, this`dnsZones
      ensures AgentStep(old(Value()), step) == Applied(changed, Value())
    {
      ghost var before := Bridges();
      match step {
        case EnsureDhcpScopeStep(spec) =>
          changed := Get(dhcpScopes, spec.scopeId) != Some(spec);
          if changed { dhcpScopes := dhcpScopes[spec.scopeId := spec]; }
        case DeleteDhcpScopeStep(id) =>
          changed := id in dhcpScopes;
          dhcpScopes := Drop(dhcpScopes, id);
        case EnsureDnsZoneStep(spec) =>
          changed := Get(dnsZones, spec.zone) != Some(spec);
          if changed { dnsZones := dnsZones[spec.zone := spec]; }
        case DeleteDnsZoneStep(zone) =>
          changed := zone in dnsZones;
          dnsZones := Drop(dnsZones, zone);
      }
      assert Bridges() == before;
    }

    method ApplyFirewallStep(step: Step) returns (changed: bool)
      requires !IsOvsStep(step) && !IsNamingStep(step)
      modifies this`natRules, this`firewallPolicies
      ensures AgentStep(old(Value()), step) == Applied(changed, Value())
    {
      ghost var before := Bridges();
      match step {
        case EnsureNatRuleStep(spec) =>
          changed := Get(natRules, spec.ruleId) != Some(spec);
          if changed { natRules := natRules[spec.ruleId := spec]; }
        case DeleteNatRuleStep(id) =>
          changed := id in natRules;
          natRules := Drop(natRules, id);
        case EnsureFirewallPolicyStep(spec) =>
          changed := Get(firewallPolicies, spec.policyId) != Some(spec);
          if changed { firewallPolicies := firewallPolicies[spec.policyId := spec]; }
        case DeleteFirewallPolicyStep(id) =>
          changed := id in firewallPolicies;
          firewallPolicies := Drop(firewallPolicies, id);
      }
      assert Bridges() == before;
    }

    method ApplyStep(step: Step) returns (r: Result<bool, string>)
      requires Valid()
      modifies Repr()
      ensures Valid() && fresh(Repr() - old(Repr()))
      ensures match AgentStep(old(Value()), step)
              case Applied(changed, n) => r == Ok(changed) && Value() == n
              case Failed(b) => r == Err(b) && Value() == old(Value())
    {
      if IsOvsStep(step) {
        r := ApplyOvsStep(step);
      } else if IsNamingStep(step) {
        var changed := ApplyNamingStep(step);
        r := Ok(changed);
      } else {
        var changed := ApplyFirewallStep(step);
        r := Ok(changed);
      }
    }

    /** One turn of the loop: the step, and its entry in the result. */
    method Attempt(step: Step) returns (entry: StepResult)
      requires Valid()
      modifies Repr()
      ensures Valid() && fresh(Repr() - old(Repr()))
      ensures Value() == AgentAfter(old(Value()), step)
      ensures entry == ResultOf(step, AgentStep(old(Value()), step))
    {
      var r := ApplyStep(step);
      match r {
        case Err(bridge) => entry := StepResult(step, false, false, BridgeMissing(bridge));
        case Ok(changed) =>
          entry := StepResult(step, true, changed, if changed then AppliedMessage else NoopMessage);
      }
    }

    /** The loop of `apply_plan` over one node. */
    method ApplySteps(plan: Plan) returns (result: PlanResult)
      requires Valid()
      modifies Repr()
      ensures Valid() && fresh(Repr() - old(Repr()))
      ensures (result, Value()) == AgentRun(old(Value()), plan)
    {
      var results := [];
      var overallOk := true;
      ghost var n0 := Value();
      for i := 0 to |plan.steps|
        invariant Valid() && fresh(Repr() - old(Repr()))
        invariant Value() == AgentExec(n0, plan.steps[..i])
        invariant results == AgentResults(n0, plan.steps[..i])
        invariant overallOk <==> AllOk(results)
      {
        var entry := Attempt(plan.steps[i]);
        if !entry.ok { overallOk := false; }
        OneMore(n0, plan.steps, i);
        AllOkAppend(results, entry);
        results := results + [entry];
      }
      assert plan.steps[..|plan.steps|] == plan.steps;
      result := PlanResult(plan.planId, overallOk, results);
    }

    method Dump() returns (d: Payload)
      requires Valid()
      ensures IsDump(d, Value())
    {
      var ks := Keys(bridges);
      var bs := [];
      for i := 0 to |ks|
        invariant |bs| == i
        invariant forall j | 0 <= j < i :: ks[j] in bridges && IsBridgeDoc(bs[j], bridges[ks[j]].Value())
      {
        assert ks[i] in ks;
        var b := BridgeToDict(bridges[ks[i]].Value());
        bs := bs + [b];
      }
      assert S.RendersInOrder(ks, bs, Bridges(), IsBridgeDoc);
      d := Payload(bs);
    }

    constructor FromPayload(d: Payload)
      ensures Valid() && Value() == Load(d) && fresh(Repr())
    {
      bridges, dhcpScopes, dnsZones, natRules, firewallPolicies := map[], map[], map[], map[], map[];
      new;
      var objects := BuildBridges(Load(d).bridges, this);
      bridges := objects;
      assert Bridges() == Load(d).bridges;
    }
  }

  method BuildBridges(bs: map<string, Bridge>, ghost owner: NodeState) returns (objects: map<string, BridgeObject>)
    ensures objects.Keys == bs.Keys
    ensures forall k | k in objects :: fresh(objects[k]) && objects[k].Value() == bs[k] && objects[k].owner == owner
    ensures forall j, k | j in objects && k in objects && j != k :: objects[j] != objects[k]
  {
    var ks := Keys(bs);
    objects := map[];
    for i := 0 to |ks|
      invariant objects.Keys == set j | 0 <= j < i :: ks[j]
      invariant forall k | k in objects ::
        fresh(objects[k]) && k in bs && objects[k].Value() == bs[k] && objects[k].owner == owner
      invariant forall j, k | j in objects && k in objects && j != k :: objects[j] != objects[k]
    {
      assert ks[i] in ks;
      var b := new BridgeObject(bs[ks[i]], owner);
      objects := objects[ks[i] := b];
    }
    assert forall k | k in bs :: k in ks;
  }

  method BridgeToDict(b: Bridge) returns (d: BridgeDoc)
    ensures IsBridgeDoc(d, b)
  {
    var ks := Keys(b.ports);
    var ps := seq(|ks|, i requires 0 <= i < |ks| && ks[i] in ks => PortToDict(b.ports[ks[i]]));
    assert S.RendersInOrder(ks, ps, b.ports, IsPortDoc);
    d := BridgeDoc(b.name, b.datapathType, b.externalIds, ps);
  }

  // ---- Many nodes ------------------------------------------------------------------

  datatype AgentSnapshot = AgentSnapshot(
    id: string, nodeId: string, createdAt: int, payload: Payload, labelText: Option<string>)

  function SnapId(n: nat): string { "snap_" + Text.Decimal(n) }

  lemma OneMore(n: Node, steps: seq<Step>, i: nat)
    requires i < |steps|
    ensures AgentExec(n, steps[..i + 1]) == AgentAfter(AgentExec(n, steps[..i]), steps[i])
    ensures AgentResults(n, steps[..i + 1]) ==
            AgentResults(n, steps[..i]) + [ResultOf(steps[i], AgentStep(AgentExec(n, steps[..i]), steps[i]))]
  {
    assert steps[..i + 1][..i] == steps[..i];
  }

  lemma SnapIdInjective(m: nat, n: nat)
    requires SnapId(m) == SnapId(n)
    ensures m == n
  {
    assert SnapId(m)[5..] == Text.Decimal(m) && SnapId(n)[5..] == Text.Decimal(n);
    Text.DecimalRoundTrip(m);
    Text.DecimalRoundTrip(n);
  }

  class FakeAgent {
    var byNode: map<string, NodeState>
    var snapshots: map<string, AgentSnapshot>
    var nextSnap: nat

    constructor ()
      ensures Valid() && byNode == map[] && snapshots == map[]
    {
      byNode, snapshots, nextSnap := map[], map[], 0;
    }

    /** The objects that make up one node. */
    ghost function NodeRepr(id: string): set<object>
      reads this`byNode, byNode.Values
    {
      if id in byNode then byNode[id].Repr() else {}
    }

    /** Nodes do not share state objects. */
    ghost predicate Separated()
      reads this`byNode, byNode.Values
    {
      && (forall k | k in byNode :: byNode[k].Valid())
      && (forall j, k | j in byNode && k in byNode && j != k :: byNode[j] != byNode[k])
    }

    /** Snapshot ids carry numbers already handed out. */
    ghost predicate Numbered()
      reads this`snapshots, this`nextSnap
    {
      forall id | id in snapshots :: exists n: nat :: n <= nextSnap && id == SnapId(n)
    }

    ghost predicate Valid()
      reads this, byNode.Values
    {
      Separated() && Numbered()
    }

    /** A node's state; one that was never mentioned is empty. */
    ghost function NodeAt(id: string): Node
      reads this`byNode, byNode.Values, NodeRepr(id)
    {
      if id in byNode then byNode[id].Value() else EMPTY_NODE
    }

    /** `self._by_node[node_id]`: the entry is created if absent. */
    method StateOf(nodeId: string) returns (state: NodeState)
      requires Separated()
      modifies this`byNode
      ensures Separated() && fresh(state.Repr() - old(NodeRepr(nodeId)))
      ensures nodeId in byNode && byNode[nodeId] == state && state.Value() == old(NodeAt(nodeId))
      ensures byNode.Keys == old(byNode).Keys + {nodeId}
      ensures forall k | k in old(byNode) && k != nodeId ::
                byNode[k] == old(byNode[k]) && unchanged(byNode[k]) && unchanged(byNode[k].bridges.Values)
    {
      if nodeId !in byNode {
        var empty := new NodeState();
        byNode := byNode[nodeId := empty];
      }
      state := byNode[nodeId];
    }

    method ApplyTo(nodeId: string, plan: Plan) returns (result: PlanResult)
      requires Separated() && nodeId in byNode
      modifies NodeRepr(nodeId)
      ensures Separated() && fresh(NodeRepr(nodeId) - old(NodeRepr(nodeId)))
      ensures (result, NodeAt(nodeId)) == AgentRun(old(NodeAt(nodeId)), plan)
      ensures byNode.Keys == old(byNode).Keys + {nodeId}
      ensures forall k | k in old(byNode) && k != nodeId ::
                byNode[k] == old(byNode[k]) && unchanged(byNode[k]) && unchanged(byNode[k].bridges.Values)
    {
      var state := byNode[nodeId];
      result := state.ApplySteps(plan);
    }

    method ApplyOnNode(nodeId: string, plan: Plan) returns (result: PlanResult)
      requires Separated()
      modifies this`byNode, NodeRepr(nodeId)
      ensures Separated() && fresh(NodeRepr(nodeId) - old(NodeRepr(nodeId)))
      ensures (result, NodeAt(nodeId)) == AgentRun(old(NodeAt(nodeId)), plan)
      ensures byNode.Keys == old(byNode).Keys + {nodeId}
      ensures forall k | k in old(byNode) && k != nodeId ::
                byNode[k] == old(byNode[k]) && unchanged(byNode[k]) && unchanged(byNode[k].bridges.Values)
    {
      var _ := StateOf(nodeId);
      result := ApplyTo(nodeId, plan);
    }

    /** Applying a plan to one node runs it there and leaves every other node as it was. */
    method ApplyPlan(nodeId: string, plan: Plan) returns (result: PlanResult)
      requires Valid()
      modifies this`byNode, NodeRepr(nodeId)
      ensures Valid() && fresh(NodeRepr(nodeId) - old(NodeRepr(nodeId)))
      ensures (result, NodeAt(nodeId)) == AgentRun(old(NodeAt(nodeId)), plan)
      ensures byNode.Keys == old(byNode).Keys + {nodeId}
      ensures forall k | k in old(byNode) && k != nodeId ::
                byNode[k] == old(byNode[k]) && unchanged(byNode[k]) && unchanged(byNode[k].bridges.Values)
    {
      result := ApplyOnNode(nodeId, plan);
    }

    method Snapshot(nodeId: string, now: int, labelText: Option<string>) returns (snap: AgentSnapshot)
      requires Valid()
      modifies this`snapshots, this`nextSnap
      ensures Valid()
      ensures snap.id !in old(snapshots) && snapshots == old(snapshots)[snap.id := snap]
      ensures snap.nodeId == nodeId && IsDump(snap.payload, NodeAt(nodeId))
      ensures snap.createdAt == now && snap.labelText == labelText
    {
      var payload := DumpOf(nodeId);
      var id := NextId();
      snap := AgentSnapshot(id, nodeId, now, payload, labelText);
      snapshots := snapshots[id := snap];
    }

    method DumpOf(nodeId: string) returns (payload: Payload)
      requires Separated()
      ensures IsDump(payload, NodeAt(nodeId))
    {
      if nodeId in byNode {
        payload := byNode[nodeId].Dump();
      } else {
        payload := Payload([]);
        assert S.RendersInOrder([], payload.bridges, EMPTY_NODE.bridges, IsBridgeDoc);
      }
    }

    /** A number never used before names the snapshot. */
    method NextId() returns (id: string)
      requires Numbered()
      modifies this`nextSnap
      ensures nextSnap == old(nextSnap) + 1 && id == SnapId(nextSnap) && id !in snapshots
      ensures Numbered()
    {
      nextSnap := nextSnap + 1;
      id := SnapId(nextSnap);
      forall n: nat | n < nextSnap ensures SnapId(n) != id {
        if SnapId(n) == id { SnapIdInjective(n, nextSnap); }
      }
    }

    /** None: no such snapshot for this node. */
    method Restore(nodeId: string, snapshotId: string) returns (r: Option<AgentSnapshot>)
      requires Valid()
      modifies this`byNode
      ensures Valid()
      ensures if snapshotId in snapshots && snapshots[snapshotId].nodeId == nodeId
              then r == Some(snapshots[snapshotId])
                && NodeAt(nodeId) == Load(snapshots[snapshotId].payload)
              else r == None && byNode == old(byNode)
      ensures forall k | k in old(byNode) && k != nodeId :: k in byNode && byNode[k] == old(byNode[k])
    {
      if snapshotId !in snapshots || snapshots[snapshotId].nodeId != nodeId { return None; }
      var snap := snapshots[snapshotId];
      var state := new NodeState.FromPayload(snap.payload);
      byNode := byNode[nodeId := state];
      return Some(snap);
    }
  }
}
