/** The edge-service value objects carried by plan steps, and the three in-memory stores
    that keep them: DHCP scopes, DNS zones, and NAT rules with firewall policies. */
module EdgeServices {
  import opened Common

  datatype DhcpScopeSpec = DhcpScopeSpec(
    scopeId: string, cidr: string, rangeStart: string, rangeEnd: string,
    gateway: Option<string>, dnsServers: seq<string>, leaseTimeSeconds: int,
    domainName: Option<string>)

  datatype RecordType = A | AAAA | CNAME

  datatype DnsRecord = DnsRecord(name: string, rtype: RecordType, value: string, ttlSeconds: int)

  datatype DnsZoneSpec = DnsZoneSpec(zone: string, records: seq<DnsRecord>, soaEmail: string)

  datatype NatRuleSpec = NatRuleSpec(ruleId: string, sourceCidr: string, egressInterface: string)

  datatype Action = Accept | DropPacket

  datatype Proto = Any | Tcp | Udp | Icmp

  datatype FirewallRuleSpec = FirewallRuleSpec(
    action: Action, proto: Proto,
    sourceCidr: Option<string>, destinationCidr: Option<string>,
    portStart: Option<int>, portEnd: Option<int>)

  datatype FirewallPolicySpec = FirewallPolicySpec(
    policyId: string, defaultAction: Action, rules: seq<FirewallRuleSpec>)

  /** What storing a spec under its id does: report whether anything differed, keep the new one. */
  function Put<V(==)>(m: map<string, V>, k: string, v: V): (r: (bool, map<string, V>))
    ensures r.0 <==> r.1 != m
    ensures Get(r.1, k) == Some(v) && forall j | j != k :: Get(r.1, j) == Get(m, j)
  {
    if Get(m, k) == Some(v) then (false, m) else (assert k !in m || m[k] != v; (true, m[k := v]))
  }

  /** What removing an id does. */
  function Pop<V(==)>(m: map<string, V>, k: string): (r: (bool, map<string, V>))
    ensures r.0 <==> r.1 != m
    ensures Get(r.1, k) == None && forall j | j != k :: Get(r.1, j) == Get(m, j)
  {
    assert k !in m ==> Drop(m, k) == m;
    (k in m, Drop(m, k))
  }

  /** The answer of a zone lookup: the first address record carrying the name. */
  function FirstAddress(records: seq<DnsRecord>, name: string): Option<string> {
    if records == [] then None
    else if records[0].name == name && records[0].rtype in {A, AAAA} then Some(records[0].value)
    else FirstAddress(records[1..], name)
  }

  predicate Answers(r: DnsRecord, name: string) { r.name == name && (r.rtype == A || r.rtype == AAAA) }

  /** A lookup answers v if and only if some record of the name is an address record of value v
      and no earlier record of the name is an address record. */
  lemma {:induction false} FirstAddressIff(records: seq<DnsRecord>, name: string)
    ensures FirstAddress(records, name).None? <==> forall i | 0 <= i < |records| :: !Answers(records[i], name)
    ensures forall i | 0 <= i < |records| && Answers(records[i], name)
              && (forall j | 0 <= j < i :: !Answers(records[j], name)) ::
              FirstAddress(records, name) == Some(records[i].value)
  {
    if records == [] {
    } else {
      var rest := records[1..];
      FirstAddressIff(rest, name);
      assert forall i | 0 < i < |records| :: records[i] == rest[i - 1];
      assert forall i | 0 <= i < |rest| :: rest[i] == records[i + 1];
    }
  }

  class FakeDhcp {
    var scopes: map<string, DhcpScopeSpec>

    constructor ()
      ensures scopes == map[]
    { scopes := map[]; }

    method Apply(scope: DhcpScopeSpec) returns (changed: bool)
      modifies this
      ensures (changed, scopes) == Put(old(scopes), scope.scopeId, scope)
    {
      var existing := Get(scopes, scope.scopeId);
      if existing == Some(scope) { return false; }
      scopes := scopes[scope.scopeId := scope];
      return true;
    }

    method Delete(scopeId: string) returns (changed: bool)
      modifies this
      ensures (changed, scopes) == Pop(old(scopes), scopeId)
    {
      changed := scopeId in scopes;
      scopes := Drop(scopes, scopeId);
    }
  }

  class FakeDns {
    var zones: map<string, DnsZoneSpec>

    constructor ()
      ensures zones == map[]
    { zones := map[]; }

    method Apply(zone: DnsZoneSpec) returns (changed: bool)
      modifies this
      ensures (changed, zones) == Put(old(zones), zone.zone, zone)
    {
      var existing := Get(zones, zone.zone);
      if existing == Some(zone) { return false; }
      zones := zones[zone.zone := zone];
      return true;
    }

    method Delete(zone: string) returns (changed: bool)
      modifies this
      ensures (changed, zones) == Pop(old(zones), zone)
    {
      changed := zone in zones;
      zones := Drop(zones, zone);
    }

    method ResolveCheck(zone: string, name: string) returns (answer: Option<string>)
      ensures answer == if zone in zones then FirstAddress(zones[zone].records, name) else None
    {
      if zone !in zones { return None; }
      var records := zones[zone].records;
      for i := 0 to |records|
        invariant FirstAddress(records, name) == FirstAddress(records[i..], name)
      {
        if records[i].name == name && records[i].rtype in {A, AAAA} { return Some(records[i].value); }
        assert records[i..][1..] == records[i + 1..];
      }
      return None;
    }
  }

  class FakeFirewall {
    var policies: map<string, FirewallPolicySpec>
    var natRules: map<string, NatRuleSpec>

    constructor ()
      ensures policies == map[] && natRules == map[]
    { policies, natRules := map[], map[]; }

    method ApplyPolicy(policy: FirewallPolicySpec) returns (changed: bool)
      modifies `policies
      ensures (changed, policies) == Put(old(policies), policy.policyId, policy)
    {
      var existing := Get(policies, policy.policyId);
      if existing == Some(policy) { return false; }
      policies := policies[policy.policyId := policy];
      return true;
    }

    method DeletePolicy(policyId: string) returns (changed: bool)
      modifies `policies
      ensures (changed, policies) == Pop(old(policies), policyId)
    {
      changed := policyId in policies;
      policies := Drop(policies, policyId);
    }

    method ApplyNat(rule: NatRuleSpec) returns (changed: bool)
      modifies `natRules
      ensures (changed, natRules) == Put(old(natRules), rule.ruleId, rule)
    {
      var existing := Get(natRules, rule.ruleId);
      if existing == Some(rule) { return false; }
      natRules := natRules[rule.ruleId := rule];
      return true;
    }

    method DeleteNat(ruleId: string) returns (changed: bool)
      modifies `natRules
      ensures (changed, natRules) == Pop(old(natRules), ruleId)
    {
      changed := ruleId in natRules;
      natRules := Drop(natRules, ruleId);
    }
  }
}
