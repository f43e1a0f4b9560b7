/** The agent's use cases over its live adapters: applying a plan, taking a snapshot of the
    OVS state, and restoring one. */
module ApplyPlan {
  import opened Common
  import opened EdgeServices
  import opened OvsStore
  import opened PlanMachine
  import opened OvsAdapter
  import O = OvsState

  class ApplyPlan {
    const ovsdb: FakeOvsdb
    const dhcp: FakeDhcp
    const dns: FakeDns
    const firewall: FakeFirewall

    constructor (ovsdb: FakeOvsdb, dhcp: FakeDhcp, dns: FakeDns, firewall: FakeFirewall)
      ensures this.ovsdb == ovsdb && this.dhcp == dhcp && this.dns == dns && this.firewall == firewall
    {
      this.ovsdb, this.dhcp, this.dns, this.firewall := ovsdb, dhcp, dns, firewall;
    }

    ghost function Repr(): set<object>
      reads ovsdb
    {
      ovsdb.Repr() + {dhcp, dns, firewall}
    }

    ghost predicate Valid()
      reads ovsdb, ovsdb.bridges.Values
    {
      ovsdb.Valid()
    }

    ghost function Contents(): Store
      reads ovsdb, ovsdb.bridges.Values, dhcp, dns, firewall
    {
      Store(ovsdb.Contents(), dhcp.scopes, dns.zones, firewall.natRules, firewall.policies)
    }

    /** The dispatch over step kinds; Err names the bridge that is missing. */
    method ApplyStep(step: Step) returns (r: Result<bool, string>)
      requires Valid()
      modifies Repr()
      ensures Valid() && fresh(Repr() - old(Repr())) && ovsdb.ovsVersion == old(ovsdb.ovsVersion)
      ensures match PlanMachine.ApplyStep(old(Contents()), step)
              case Applied(changed, t) => r == Ok(changed) && Contents() == t
              case Failed(bridge) => r == Err(bridge) && Contents() == old(Contents())
    {
      if IsOvsStep(step) {
        r := ApplyOvsStep(step);
      } else if IsNamingStep(step) {
        var changed := ApplyNamingStep(step);
        r := Ok(changed);
      } else {
        var changed := ApplyFirewallStep(step);
        r := Ok(changed);
      }
    }

    method ApplyOvsStep(step: Step) returns (r: Result<bool, string>)
      requires Valid() && IsOvsStep(step)
      modifies ovsdb.Repr()
      ensures Valid() && fresh(Repr() - old(Repr())) && ovsdb.ovsVersion == old(ovsdb.ovsVersion)
      ensures match PlanMachine.ApplyStep(old(Contents()), step)
              case Applied(changed, t) => r == Ok(changed) && Contents() == t
              case Failed(bridge) => r == Err(bridge) && Contents() == old(Contents())
    {
      match step {
        case EnsureBridgeStep(name, datapathType, externalIds) =>
          var changed := ovsdb.EnsureBridge(name, datapathType, externalIds);
          return Ok(changed);
        case DeleteBridgeStep(name) =>
          var changed := ovsdb.DeleteBridge(name);
          return Ok(changed);
        case EnsurePortStep(bridge, name, ifaceType, options, tag, trunks, externalIds) =>
          var o := ovsdb.EnsurePort(bridge, name, ifaceType, options, tag, trunks, externalIds);
          return if o.None? then Err(bridge) else Ok(o.value);
        case DeletePortStep(bridge, name) =>
          var o := ovsdb.DeletePort(bridge, name);
          return if o.None? then Err(bridge) else Ok(o.value);
        case EnsureVxlanPortStep(bridge, name, vni, remoteIp, localIp, dstPort, mtu, externalIds) =>
          var o := ovsdb.EnsureVxlanPort(bridge, name, vni, remoteIp, localIp, dstPort, mtu, externalIds);
          return if o.None? then Err(bridge) else Ok(o.value);
      }
    }

    method ApplyNamingStep(step: Step) returns (changed: bool)
      requires IsNamingStep(step)
      modifies dhcp, dns
      ensures Applied(changed, Contents()) == PlanMachine.ApplyStep(old(Contents()), step)
    {
      match step {
        case EnsureDhcpScopeStep(spec) => changed := dhcp.Apply(spec);
        case DeleteDhcpScopeStep(id) => changed := dhcp.Delete(id);
        case EnsureDnsZoneStep(spec) => changed := dns.Apply(spec);
        case DeleteDnsZoneStep(zone) => changed := dns.Delete(zone);
      }
    }

    method ApplyFirewallStep(step: Step) returns (changed: bool)
      requires !IsOvsStep(step) && !IsNamingStep(step)
      modifies firewall
      ensures Applied(changed, Contents()) == PlanMachine.ApplyStep(old(Contents()), step)
    {
      match step {
        case EnsureNatRuleStep(spec) => changed := firewall.ApplyNat(spec);
        case DeleteNatRuleStep(id) => changed := firewall.DeleteNat(id);
        case EnsureFirewallPolicyStep(spec) => changed := firewall.ApplyPolicy(spec);
        case DeleteFirewallPolicyStep(id) => changed := firewall.DeletePolicy(id);
      }
    }

    /** One turn of the loop: the step, and its entry in the result. */
    method Attempt(step: Step) returns (entry: StepResult)
      requires Valid()
      modifies Repr()
      ensures Valid() && fresh(Repr() - old(Repr())) && ovsdb.ovsVersion == old(ovsdb.ovsVersion)
      ensures Contents() == After(old(Contents()), step)
      ensures entry == ResultOf(step, PlanMachine.ApplyStep(old(Contents()), step))
    {
      var r := ApplyStep(step);
      match r {
        case Err(bridge) => entry := StepResult(step, false, false, BridgeMissing(bridge));
        case Ok(changed) =>
          entry := StepResult(step, true, changed, if changed then AppliedMessage else NoopMessage);
      }
    }

    method Execute(plan: Plan) returns (result: PlanResult)
      requires Valid()
      modifies Repr()
      ensures Valid() && fresh(Repr() - old(Repr())) && ovsdb.ovsVersion == old(ovsdb.ovsVersion)
      ensures (result, Contents()) == Run(old(Contents()), plan)
    {
      var results := [];
      var overallOk := true;
      ghost var s0 := Contents();
      for i := 0 to |plan.steps|
        invariant Valid() && fresh(Repr() - old(Repr())) && ovsdb.ovsVersion == old(ovsdb.ovsVersion)
        invariant Contents() == Exec(s0, plan.steps[..i])
        invariant results == Results(s0, plan.steps[..i])
        invariant overallOk <==> AllOk(results)
      {
        var entry := Attempt(plan.steps[i]);
        if !entry.ok { overallOk := false; }
        OneMore(s0, plan.steps, i);
        AllOkAppend(results, entry);
        results := results + [entry];
      }
      assert plan.steps[..|plan.steps|] == plan.steps;
      result := PlanResult(plan.planId, overallOk, results);
    }
  }

  lemma OneMore(s: Store, steps: seq<Step>, i: nat)
    requires i < |steps|
    ensures Exec(s, steps[..i + 1]) == After(Exec(s, steps[..i]), steps[i])
    ensures Results(s, steps[..i + 1]) ==
            Results(s, steps[..i]) + [ResultOf(steps[i], PlanMachine.ApplyStep(Exec(s, steps[..i]), steps[i]))]
  {
    assert steps[..i + 1][..i] == steps[..i];
  }

  // ---- Snapshots ------------------------------------------------------------------

  method ReadBoth(ovsdb: FakeOvsdb) returns (stateHash: O.OvsState, payload: OvsDoc)
    requires ovsdb.Valid()
    ensures IsDump(payload, ovsdb.ovsVersion, ovsdb.Contents())
    ensures HashOf(stateHash, ovsdb.ovsVersion, ovsdb.Contents())
  {
    var state := ovsdb.GetState();
    payload := ovsdb.Dump();
    stateHash := O.Hash(state);
    assert IsState(state, ovsdb.ovsVersion, ovsdb.Contents());
  }

  datatype OvsSnapshot = OvsSnapshot(
    id: string, createdAt: int, stateHash: O.OvsState, payload: OvsDoc, labelText: Option<string>)

  /** The snapshot repository and the two use cases over it. */
  class Snapshots {
    var saved: map<string, OvsSnapshot>

    constructor ()
      ensures saved == map[]
    { saved := map[]; }

    /** Reads the state, dumps, saves under the given fresh id. */
    method Snapshot(ovsdb: FakeOvsdb, id: string, now: int, labelText: Option<string>) returns (s: OvsSnapshot)
      requires ovsdb.Valid()
      modifies this
      ensures saved == old(saved)[id := s] && s.id == id && s.createdAt == now && s.labelText == labelText
      ensures IsDump(s.payload, ovsdb.ovsVersion, ovsdb.Contents())
      ensures HashOf(s.stateHash, ovsdb.ovsVersion, ovsdb.Contents())
    {
      ghost var bs := ovsdb.Contents();
      var stateHash, payload := ReadBoth(ovsdb);
      s := OvsSnapshot(id, now, stateHash, payload, labelText);
      saved := saved[id := s];
      assert ovsdb.Contents() == bs;
    }

    /** None: no such snapshot. Some(false): the payload could not be read. */
    method Restore(ovsdb: FakeOvsdb, id: string) returns (r: Option<bool>)
      requires ovsdb.Valid()
      modifies ovsdb.Repr()
      ensures ovsdb.Valid() && fresh(ovsdb.Repr() - old(ovsdb.Repr())) && saved == old(saved)
      ensures id !in saved ==>
        r == None && ovsdb.Contents() == old(ovsdb.Contents()) && ovsdb.ovsVersion == old(ovsdb.ovsVersion)
      ensures id in saved ==>
        var payload := saved[id].payload;
        && ovsdb.ovsVersion == ReadVersion(payload, old(ovsdb.ovsVersion))
        && match ReadBridges(payload)
           case None => r == Some(false) && ovsdb.Contents() == old(ovsdb.Contents())
           case Some(bs) => r == Some(true) && ovsdb.Contents() == bs
    {
      if id !in saved { return None; }
      var ok := ovsdb.Restore(saved[id].payload);
      r := Some(ok);
    }
  }

  method RunPlans(agent: ApplyPlan, plans: seq<Plan>)
    requires agent.Valid()
    modifies agent.Repr()
    ensures agent.Valid() && fresh(agent.Repr() - old(agent.Repr()))
    ensures agent.Contents() == RunAll(old(agent.Contents()), plans)
    ensures agent.ovsdb.ovsVersion == old(agent.ovsdb.ovsVersion)
  {
    ghost var s0 := agent.Contents();
    for i := 0 to |plans|
      invariant agent.Valid() && fresh(agent.Repr() - old(agent.Repr()))
      invariant agent.Contents() == RunAll(s0, plans[..i])
      invariant agent.ovsdb.ovsVersion == old(agent.ovsdb.ovsVersion)
    {
      var _ := agent.Execute(plans[i]);
      assert plans[..i + 1][..i] == plans[..i];
    }
    assert plans[..|plans|] == plans;
  }

  /** Rollback, end to end: a snapshot, any number of plans, a restore. The OVS contents and
      version are those of the snapshot, and a later reading hashes as the snapshot recorded,
      while the edge services keep what the plans left. */
  method Rollback(agent: ApplyPlan, repo: Snapshots, id: string, now: int, plans: seq<Plan>)
    returns (hashBefore: O.OvsState, hashAfter: O.OvsState)
    requires agent.Valid() && WfStore(agent.Contents())
    requires repo !in agent.Repr()
    modifies agent.Repr(), repo
    ensures agent.Valid()
    ensures agent.Contents().bridges == old(agent.Contents()).bridges
    ensures agent.ovsdb.ovsVersion == old(agent.ovsdb.ovsVersion)
    ensures hashBefore == hashAfter
    ensures agent.Contents() == RunAll(old(agent.Contents()), plans).(bridges := old(agent.Contents()).bridges)
  {
    ghost var s0 := agent.Contents();
    ghost var v0 := agent.ovsdb.ovsVersion;
    var snap := repo.Snapshot(agent.ovsdb, id, now, None);
    hashBefore := snap.stateHash;
    assert agent.Contents() == s0;
    RunPlans(agent, plans);
    ghost var s1 := agent.Contents();
    assert repo.saved[id] == snap;
    hashAfter := RestoreAndRead(agent, repo, id, v0, s0.bridges);
    assert agent.Contents() == s1.(bridges := s0.bridges);
    HashUnique(hashBefore, hashAfter, v0, s0.bridges);
  }

  /** Restoring a dump taken of (version, bs) brings back exactly those. */
  method RestoreAndRead(agent: ApplyPlan, repo: Snapshots, id: string, ghost version: string, ghost bs: Bridges)
    returns (hash: O.OvsState)
    requires agent.Valid() && Wf(bs) && agent.ovsdb.ovsVersion == version
    requires id in repo.saved && IsDump(repo.saved[id].payload, version, bs)
    modifies agent.ovsdb.Repr()
    ensures agent.Valid() && agent.ovsdb.ovsVersion == version
    ensures agent.Contents() == old(agent.Contents()).(bridges := bs)
    ensures HashOf(hash, version, bs)
  {
    DumpRoundTrip(repo.saved[id].payload, version, bs);
    var _ := repo.Restore(agent.ovsdb, id);
    assert agent.ovsdb.Contents() == bs;
    var after := agent.ovsdb.GetState();
    hash := O.Hash(after);
  }

  /** All readings of one store have one hash. */
  lemma HashUnique(g: O.OvsState, h: O.OvsState, version: string, bs: Bridges)
    requires Wf(bs) && HashOf(g, version, bs) && HashOf(h, version, bs)
    ensures g == h
  {
    var before :| IsState(before, version, bs) && g == O.Hash(before);
    var after :| IsState(after, version, bs) && h == O.Hash(after);
    ReadersAgree(before, after, version, bs);
  }

  ghost predicate HashOf(h: O.OvsState, version: string, bs: Bridges) {
    exists st :: IsState(st, version, bs) && h == O.Hash(st)
  }

  function RunAll(s: Store, plans: seq<Plan>): Store {
    if plans == [] then s else Exec(RunAll(s, plans[..|plans| - 1]), plans[|plans| - 1].steps)
  }
}
