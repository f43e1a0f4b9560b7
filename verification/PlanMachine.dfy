/** The agent's plan language as a machine over store contents: thirteen kinds of step, each
    of which either applies (and says whether anything changed) or fails alone. */
module PlanMachine {
  import opened Common
  import opened EdgeServices
  import opened OvsStore

  datatype Step =
    | EnsureBridgeStep(name: string, datapathType: string, externalIds: Dict)
    | DeleteBridgeStep(name: string)
    | EnsurePortStep(bridge: string, name: string, ifaceType: string, options: Dict,
                     tag: Option<int>, trunks: seq<int>, externalIds: Dict)
    | DeletePortStep(bridge: string, name: string)
    | EnsureVxlanPortStep(bridge: string, name: string, vni: int, remoteIp: string,
                          localIp: Option<string>, dstPort: int, mtu: Option<int>, externalIds: Dict)
    | EnsureDhcpScopeStep(scope: DhcpScopeSpec)
    | DeleteDhcpScopeStep(scopeId: string)
    | EnsureDnsZoneStep(zoneSpec: DnsZoneSpec)
    | DeleteDnsZoneStep(zone: string)
    | EnsureNatRuleStep(rule: NatRuleSpec)
    | DeleteNatRuleStep(ruleId: string)
    | EnsureFirewallPolicyStep(policy: FirewallPolicySpec)
    | DeleteFirewallPolicyStep(policyId: string)

  datatype Plan = Plan(planId: string, steps: seq<Step>)

  datatype Message = AppliedMessage | NoopMessage | BridgeMissing(bridge: string)

  datatype StepResult = StepResult(step: Step, ok: bool, changed: bool, message: Message)

  datatype PlanResult = PlanResult(planId: string, ok: bool, steps: seq<StepResult>)

  /** Everything the agent's stores hold. */
  datatype Store = Store(
    bridges: Bridges,
    dhcp: map<string, DhcpScopeSpec>,
    dns: map<string, DnsZoneSpec>,
    natRules: map<string, NatRuleSpec>,
    policies: map<string, FirewallPolicySpec>)

  datatype Outcome<+S> = Applied(changed: bool, store: S) | Failed(missing: string)

  function OnBridges(s: Store, r: Option<(bool, Bridges)>, bridge: string): Outcome<Store> {
    if r.None? then Failed(bridge) else Applied(r.value.0, s.(bridges := r.value.1))
  }

  function VxlanPort(step: Step): Port
    requires step.EnsureVxlanPortStep?
  {
    NewPort(step.name, "vxlan",
            VxlanOptions(step.vni, step.remoteIp, step.localIp, step.dstPort, step.mtu),
            None, [], step.externalIds)
  }

  function PlainPort(step: Step): Port
    requires step.EnsurePortStep?
  {
    NewPort(step.name, step.ifaceType, step.options, step.tag, step.trunks, step.externalIds)
  }

  function ApplyStep(s: Store, step: Step): Outcome<Store> {
    match step
    case EnsureBridgeStep(name, datapathType, externalIds) =>
      var r := EnsureBridge(s.bridges, name, datapathType, externalIds);
      Applied(r.0, s.(bridges := r.1))
    case DeleteBridgeStep(name) =>
      var r := DeleteBridge(s.bridges, name);
      Applied(r.0, s.(bridges := r.1))
    case EnsurePortStep(bridge, _, _, _, _, _, _) =>
      OnBridges(s, EnsurePort(s.bridges, bridge, PlainPort(step)), bridge)
    case DeletePortStep(bridge, name) =>
      OnBridges(s, DeletePort(s.bridges, bridge, name), bridge)
    case EnsureVxlanPortStep(bridge, _, _, _, _, _, _, _) =>
      OnBridges(s, EnsurePort(s.bridges, bridge, VxlanPort(step)), bridge)
    case EnsureDhcpScopeStep(spec) =>
      var r := Put(s.dhcp, spec.scopeId, spec);
      Applied(r.0, s.(dhcp := r.1))
    case DeleteDhcpScopeStep(id) =>
      var r := Pop(s.dhcp, id);
      Applied(r.0, s.(dhcp := r.1))
    case EnsureDnsZoneStep(spec) =>
      var r := Put(s.dns, spec.zone, spec);
      Applied(r.0, s.(dns := r.1))
    case DeleteDnsZoneStep(zone) =>
      var r := Pop(s.dns, zone);
      Applied(r.0, s.(dns := r.1))
    case EnsureNatRuleStep(spec) =>
      var r := Put(s.natRules, spec.ruleId, spec);
      Applied(r.0, s.(natRules := r.1))
    case DeleteNatRuleStep(id) =>
      var r := Pop(s.natRules, id);
      Applied(r.0, s.(natRules := r.1))
    case EnsureFirewallPolicyStep(spec) =>
      var r := Put(s.policies, spec.policyId, spec);
      Applied(r.0, s.(policies := r.1))
    case DeleteFirewallPolicyStep(id) =>
      var r := Pop(s.policies, id);
      Applied(r.0, s.(policies := r.1))
  }

  /** The store after a step; a failed step leaves it alone. */
  function After(s: Store, step: Step): Store {
    match ApplyStep(s, step)
    case Applied(_, t) => t
    case Failed(_) => s
  }

  function ResultOf<S>(step: Step, o: Outcome<S>): StepResult {
    match o
    case Applied(changed, _) => StepResult(step, true, changed, if changed then AppliedMessage else NoopMessage)
    case Failed(bridge) => StepResult(step, false, false, BridgeMissing(bridge))
  }

  function Exec(s: Store, steps: seq<Step>): Store {
    if steps == [] then s else After(Exec(s, steps[..|steps| - 1]), steps[|steps| - 1])
  }

  function Results(s: Store, steps: seq<Step>): (r: seq<StepResult>)
    ensures |r| == |steps|
  {
    if steps == [] then []
    else
      var n := |steps| - 1;
      Results(s, steps[..n]) + [ResultOf(steps[n], ApplyStep(Exec(s, steps[..n]), steps[n]))]
  }

  predicate AllOk(rs: seq<StepResult>) {
    forall i | 0 <= i < |rs| :: rs[i].ok
  }

  lemma AllOkAppend(rs: seq<StepResult>, r: StepResult)
    ensures AllOk(rs + [r]) <==> AllOk(rs) && r.ok
  {
    if AllOk(rs + [r]) {
      assert (rs + [r])[|rs|] == r;
      forall i | 0 <= i < |rs| ensures rs[i].ok { assert (rs + [r])[i] == rs[i]; }
    }
  }

  /** `ApplyPlan.execute` */
  function Run(s: Store, plan: Plan): (PlanResult, Store) {
    var rs := Results(s, plan.steps);
    (PlanResult(plan.planId, AllOk(rs), rs), Exec(s, plan.steps))
  }

  ghost predicate WfStore(s: Store) { Wf(s.bridges) }

  // ---- The changed flag is exact ---------------------------------------------------

  /** On every well-formed store a step reports a change exactly when the content differs
      afterwards, a failing step changes nothing, and well-formedness is kept. */
  lemma ChangedIsExact(s: Store, step: Step)
    requires WfStore(s)
    ensures WfStore(After(s, step))
    ensures match ApplyStep(s, step)
            case Applied(changed, t) => changed <==> t != s
            case Failed(bridge) => After(s, step) == s && bridge !in s.bridges
  {
    match step
    case EnsureBridgeStep(name, dp, ids) => EnsureBridgeExact(s.bridges, name, dp, ids);
    case DeleteBridgeStep(name) => DeleteBridgeExact(s.bridges, name);
    case EnsurePortStep(bridge, _, _, _, _, _, _) =>
      if bridge in s.bridges { EnsurePortExact(s.bridges, bridge, PlainPort(step)); }
    case DeletePortStep(bridge, name) =>
      if bridge in s.bridges { DeletePortExact(s.bridges, bridge, name); }
    case EnsureVxlanPortStep(bridge, _, _, _, _, _, _, _) =>
      if bridge in s.bridges { EnsurePortExact(s.bridges, bridge, VxlanPort(step)); }
    case _ =>
  }

  lemma {:induction false} ExecKeepsWf(s: Store, steps: seq<Step>)
    requires WfStore(s)
    ensures WfStore(Exec(s, steps))
  {
    if steps == [] {
    } else {
      var n := |steps| - 1;
      ExecKeepsWf(s, steps[..n]);
      ChangedIsExact(Exec(s, steps[..n]), steps[n]);
    }
  }

  lemma OkPrefix(s: Store, steps: seq<Step>)
    requires steps != [] && AllOk(Results(s, steps))
    ensures var n := |steps| - 1;
            AllOk(Results(s, steps[..n])) && ApplyStep(Exec(s, steps[..n]), steps[n]).Applied?
  {
    var n := |steps| - 1;
    assert Results(s, steps[..n]) == Results(s, steps)[..n];
    assert Results(s, steps)[n].ok;
  }

  // ---- Cells ---------------------------------------------------------------------------

  // A bridge is seen as one cell for its attributes and one cell for each port.
  function Attributes(bs: Bridges, b: string): Option<(string, Dict)> {
    if b in bs then Some((bs[b].datapathType, bs[b].externalIds)) else None
  }

  function PortCell(bs: Bridges, b: string, p: string): Option<Port> {
    if b in bs then Get(bs[b].ports, p) else None
  }

  lemma CellsDetermine(x: Bridges, y: Bridges)
    requires Wf(x) && Wf(y)
    requires forall b :: Attributes(x, b) == Attributes(y, b)
    requires forall b, p :: PortCell(x, b, p) == PortCell(y, b, p)
    ensures x == y
  {
    assert forall b | b in x :: Attributes(x, b) == Attributes(y, b);
    assert forall b | b in y :: Attributes(x, b) == Attributes(y, b);
    forall b | b in x ensures b in y && x[b] == y[b] {
      assert Attributes(x, b) == Attributes(y, b);
      forall p ensures Get(x[b].ports, p) == Get(y[b].ports, p) {
        assert PortCell(x, b, p) == PortCell(y, b, p);
      }
      GetDetermines(x[b].ports, y[b].ports);
    }
  }

  lemma GetDetermines<V>(x: map<string, V>, y: map<string, V>)
    requires forall k :: Get(x, k) == Get(y, k)
    ensures x == y
  {
    assert forall k | k in x :: Get(x, k) == Get(y, k);
    assert forall k | k in y :: Get(x, k) == Get(y, k);
  }

  /** What one operation does to the cells. */
  lemma EnsureBridgeCells(bs: Bridges, name: string, dp: string, ids: Dict)
    ensures var r := EnsureBridge(bs, name, dp, ids).1;
      && (forall b :: Attributes(r, b) == if b == name then Some((dp, ids)) else Attributes(bs, b))
      && (forall b, p :: PortCell(r, b, p) == PortCell(bs, b, p))
  {
  }

  lemma DeleteBridgeCells(bs: Bridges, name: string)
    ensures var r := DeleteBridge(bs, name).1;
      && (forall b :: Attributes(r, b) == if b == name then None else Attributes(bs, b))
      && (forall b, p :: PortCell(r, b, p) == if b == name then None else PortCell(bs, b, p))
  {
  }

  /** Where the bridge is missing the operation fails and leaves every cell alone. */
  function EnsuredPorts(bs: Bridges, bridge: string, port: Port): Bridges {
    if bridge in bs then EnsurePort(bs, bridge, port).value.1 else bs
  }

  function DeletedPorts(bs: Bridges, bridge: string, name: string): Bridges {
    if bridge in bs then DeletePort(bs, bridge, name).value.1 else bs
  }

  lemma EnsurePortCells(bs: Bridges, bridge: string, port: Port)
    requires Wf(bs) && WfPort(port)
    ensures var r := EnsuredPorts(bs, bridge, port);
      && (forall b :: Attributes(r, b) == Attributes(bs, b))
      && (forall b, p :: PortCell(r, b, p) ==
            if b == bridge && p == port.name && bridge in bs then Some(port) else PortCell(bs, b, p))
  {
    if bridge in bs { EnsurePortExact(bs, bridge, port); }
  }

  lemma DeletePortCells(bs: Bridges, bridge: string, name: string)
    ensures var r := DeletedPorts(bs, bridge, name);
      && (forall b :: Attributes(r, b) == Attributes(bs, b))
      && (forall b, p :: PortCell(r, b, p) ==
            if b == bridge && p == name then None else PortCell(bs, b, p))
  {
  }

  predicate IsOvsStep(step: Step) {
    || step.EnsureBridgeStep? || step.DeleteBridgeStep? || step.EnsurePortStep?
    || step.DeletePortStep? || step.EnsureVxlanPortStep?
  }

  predicate IsNamingStep(step: Step) {
    || step.EnsureDhcpScopeStep? || step.DeleteDhcpScopeStep?
    || step.EnsureDnsZoneStep? || step.DeleteDnsZoneStep?
  }

  // ---- Idempotency of plans that only ensure -------------------------------------------

  datatype Target =
    | BridgeTarget(name: string)
    | PortTarget(bridge: string, name: string)
    | DhcpTarget(id: string)
    | DnsTarget(zone: string)
    | NatTarget(id: string)
    | PolicyTarget(id: string)

  function EnsuredTarget(step: Step): Option<Target> {
    match step
    case EnsureBridgeStep(name, _, _) => Some(BridgeTarget(name))
    case EnsurePortStep(bridge, name, _, _, _, _, _) => Some(PortTarget(bridge, name))
    case EnsureVxlanPortStep(bridge, name, _, _, _, _, _, _) => Some(PortTarget(bridge, name))
    case EnsureDhcpScopeStep(spec) => Some(DhcpTarget(spec.scopeId))
    case EnsureDnsZoneStep(spec) => Some(DnsTarget(spec.zone))
    case EnsureNatRuleStep(spec) => Some(NatTarget(spec.ruleId))
    case EnsureFirewallPolicyStep(spec) => Some(PolicyTarget(spec.policyId))
    case _ => None
  }

  /** The cell a step ensures holds what the step asks for. */
  ghost predicate Holds(s: Store, step: Step)
    requires EnsuredTarget(step).Some?
  {
    match step
    case EnsureBridgeStep(name, dp, ids) => Attributes(s.bridges, name) == Some((dp, ids))
    case EnsurePortStep(bridge, name, _, _, _, _, _) => PortCell(s.bridges, bridge, name) == Some(PlainPort(step))
    case EnsureVxlanPortStep(bridge, name, _, _, _, _, _, _) =>
      PortCell(s.bridges, bridge, name) == Some(VxlanPort(step))
    case EnsureDhcpScopeStep(spec) => Get(s.dhcp, spec.scopeId) == Some(spec)
    case EnsureDnsZoneStep(spec) => Get(s.dns, spec.zone) == Some(spec)
    case EnsureNatRuleStep(spec) => Get(s.natRules, spec.ruleId) == Some(spec)
    case EnsureFirewallPolicyStep(spec) => Get(s.policies, spec.policyId) == Some(spec)
  }

  /** A step establishes its own goal, and a step with another target leaves it standing. */
  lemma GoalsPersist(s: Store, step: Step, other: Step)
    requires WfStore(s) && EnsuredTarget(step).Some? && EnsuredTarget(other).Some?
    requires ApplyStep(s, step).Applied?
    ensures Holds(After(s, step), step)
    ensures EnsuredTarget(other) != EnsuredTarget(step) && Holds(s, other) ==> Holds(After(s, step), other)
  {
    match step
    case EnsureBridgeStep(name, dp, ids) => EnsureBridgeCells(s.bridges, name, dp, ids);
    case EnsurePortStep(bridge, _, _, _, _, _, _) => EnsurePortCells(s.bridges, bridge, PlainPort(step));
    case EnsureVxlanPortStep(bridge, _, _, _, _, _, _, _) => EnsurePortCells(s.bridges, bridge, VxlanPort(step));
    case _ =>
  }

  lemma HeldPortIsNoop(bs: Bridges, bridge: string, port: Port)
    requires PortCell(bs, bridge, port.name) == Some(port)
    ensures EnsurePort(bs, bridge, port) == Some((false, bs))
  {
    assert PortsEqual(port, port);
  }

  lemma HeldBridgeIsNoop(bs: Bridges, name: string, dp: string, ids: Dict)
    requires Attributes(bs, name) == Some((dp, ids))
    ensures EnsureBridge(bs, name, dp, ids) == (false, bs)
  {
    assert EnsureBridge(bs, name, dp, ids).1 == bs;
  }

  lemma HeldStepIsNoop(s: Store, step: Step)
    requires EnsuredTarget(step).Some? && Holds(s, step)
    ensures ApplyStep(s, step) == Applied(false, s)
  {
    match step
    case EnsureBridgeStep(name, dp, ids) => HeldBridgeIsNoop(s.bridges, name, dp, ids);
    case EnsurePortStep(bridge, _, _, _, _, _, _) => HeldPortIsNoop(s.bridges, bridge, PlainPort(step));
    case EnsureVxlanPortStep(bridge, _, _, _, _, _, _, _) => HeldPortIsNoop(s.bridges, bridge, VxlanPort(step));
    case _ =>
  }

  ghost predicate DistinctTargets(steps: seq<Step>) {
    && (forall i | 0 <= i < |steps| :: EnsuredTarget(steps[i]).Some?)
    && forall i, j | 0 <= i < j < |steps| :: EnsuredTarget(steps[i]) != EnsuredTarget(steps[j])
  }

  lemma DistinctPrefix(steps: seq<Step>)
    requires DistinctTargets(steps) && steps != []
    ensures DistinctTargets(steps[..|steps| - 1])
    ensures forall step | step in steps[..|steps| - 1] :: EnsuredTarget(step) != EnsuredTarget(steps[|steps| - 1])
  {
  }

  lemma {:induction false} AllHold(s: Store, steps: seq<Step>)
    requires WfStore(s) && DistinctTargets(steps) && AllOk(Results(s, steps))
    ensures forall step | step in steps :: EnsuredTarget(step).Some? && Holds(Exec(s, steps), step)
  {
    if steps == [] {
    } else {
      var n := |steps| - 1;
      var init, last := steps[..n], steps[n];
      var before := Exec(s, init);
      assert steps == init + [last];
      OkPrefix(s, steps);
      DistinctPrefix(steps);
      AllHold(s, init);
      ExecKeepsWf(s, init);
      GoalsPersist(before, last, last);
      forall step | step in init ensures Holds(After(before, last), step) {
        GoalsPersist(before, last, step);
      }
    }
  }

  lemma {:induction false} HeldPlanIsNoop(s: Store, steps: seq<Step>)
    requires forall i | 0 <= i < |steps| :: EnsuredTarget(steps[i]).Some? && Holds(s, steps[i])
    ensures Exec(s, steps) == s
    ensures forall r | r in Results(s, steps) :: r.ok && !r.changed
  {
    if steps == [] {
    } else {
      var n := |steps| - 1;
      HeldPlanIsNoop(s, steps[..n]);
      HeldStepIsNoop(s, steps[n]);
    }
  }

  /** A plan that only ensures pairwise different targets, once applied ok, is a no-op ever
      after: every step is ok and reports no change. */
  lemma EnsurePlanIsIdempotent(s: Store, plan: Plan)
    requires WfStore(s) && DistinctTargets(plan.steps) && Run(s, plan).0.ok
    ensures Run(Run(s, plan).1, plan).1 == Run(s, plan).1
    ensures Run(Run(s, plan).1, plan).0.ok
    ensures forall r | r in Run(Run(s, plan).1, plan).0.steps :: r.ok && !r.changed
  {
    AllHold(s, plan.steps);
    HeldPlanIsNoop(Exec(s, plan.steps), plan.steps);
  }
}
