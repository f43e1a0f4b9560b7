/** The nftables firewall: rules are translated into chain statements, and the whole script is
    rebuilt on every change. Statements are kept as lists of expressions; the printed line is
    the list joined by spaces. */
module Nftables {
  import opened Common
  import opened EdgeServices

  // ---- Rules accepted by the value object -------------------------------------------------

  /** Python's `x or default` on a port: absent and 0 both take the default. */
  function PortOr(p: Option<int>, default: int): int {
    if p.Some? && p.value != 0 then p.value else default
  }

  predicate HasPorts(r: FirewallRuleSpec) { r.portStart.Some? || r.portEnd.Some? }

  function FirstPort(r: FirewallRuleSpec): int { PortOr(r.portStart, 0) }

  function LastPort(r: FirewallRuleSpec): int { PortOr(r.portEnd, FirstPort(r)) }

  /** The port checks of `FirewallRuleSpec`; CIDR texts are checked by the address library. */
  predicate ValidRule(r: FirewallRuleSpec) {
    && (r.proto.Icmp? ==> !HasPorts(r))
    && (HasPorts(r) ==> 1 <= FirstPort(r) <= 65535 && 1 <= LastPort(r) <= 65535 && FirstPort(r) <= LastPort(r))
  }

  /** In plain numbers: no ports at all, or not icmp and a first port, with a last port that is
      absent, zero or not below it. */
  lemma ValidRuleIff(r: FirewallRuleSpec)
    ensures ValidRule(r) <==>
      || (r.portStart == None && r.portEnd == None)
      || (&& r.proto != Icmp && r.portStart.Some? && 1 <= r.portStart.value <= 65535
          && (r.portEnd.Some? && r.portEnd.value != 0 ==> r.portStart.value <= r.portEnd.value <= 65535))
  {
  }

  // ---- Rendering --------------------------------------------------------------------------

  datatype Expr =
    | Saddr(cidr: string) | Daddr(cidr: string)
    | L4proto(proto: Proto)
    | Dport(proto: Proto, first: int, last: int)
    | Counter
    | Verdict(action: Action)

  type Statement = seq<Expr>

  // The parts of a rule's statement, each absent or one expression.
  function SourcePart(r: FirewallRuleSpec): Statement {
    if r.sourceCidr.Some? then [Saddr(r.sourceCidr.value)] else []
  }

  function DestinationPart(r: FirewallRuleSpec): Statement {
    if r.destinationCidr.Some? then [Daddr(r.destinationCidr.value)] else []
  }

  function ProtoPart(r: FirewallRuleSpec): Statement {
    if r.proto.Any? then [] else [L4proto(r.proto)]
  }

  function PortPart(r: FirewallRuleSpec): Statement {
    if r.portStart.None? then []
    else [Dport(if r.proto.Tcp? || r.proto.Udp? then r.proto else Tcp,
                r.portStart.value, PortOr(r.portEnd, r.portStart.value))]
  }

  function RuleStatement(r: FirewallRuleSpec): Statement {
    SourcePart(r) + (DestinationPart(r) + (ProtoPart(r) + (PortPart(r) + [Counter, Verdict(r.action)])))
  }

  lemma Assembled(a: Statement, b: Statement, c: Statement, d: Statement, x: Expr, y: Expr)
    ensures a + b + c + d + [x] + [y] == a + (b + (c + (d + [x, y])))
  {
  }

  method RenderRule(r: FirewallRuleSpec) returns (matches: Statement)
    ensures matches == RuleStatement(r)
  {
    matches := [];
    if r.sourceCidr.Some? { matches := matches + [Saddr(r.sourceCidr.value)]; }
    ghost var source := matches;
    assert source == SourcePart(r);
    if r.destinationCidr.Some? { matches := matches + [Daddr(r.destinationCidr.value)]; }
    ghost var both := source + DestinationPart(r);
    assert matches == both;
    if !r.proto.Any? { matches := matches + [L4proto(r.proto)]; }
    ghost var three := both + ProtoPart(r);
    assert matches == three;
    if r.portStart.Some? {
      var end := PortOr(r.portEnd, r.portStart.value);
      var proto := if r.proto in {Tcp, Udp} then r.proto else Tcp;
      matches := matches + [Dport(proto, r.portStart.value, end)];
    }
    assert matches == three + PortPart(r);
    matches := matches + [Counter];
    matches := matches + [Verdict(r.action)];
    Assembled(SourcePart(r), DestinationPart(r), ProtoPart(r), PortPart(r), Counter, Verdict(r.action));
  }

  function RuleStatements(rules: seq<FirewallRuleSpec>): (s: seq<Statement>)
    ensures |s| == |rules| && forall i | 0 <= i < |s| :: s[i] == RuleStatement(rules[i])
  {
    seq(|rules|, i requires 0 <= i < |rules| => RuleStatement(rules[i]))
  }

  function ChainBody(p: FirewallPolicySpec): seq<Statement> {
    [[Counter]] + RuleStatements(p.rules) + [[Verdict(p.defaultAction)]]
  }

  datatype Chain = Chain(name: string, body: seq<Statement>)

  datatype Script = Script(chains: seq<Chain>, jumps: seq<string>, masquerade: seq<NatRuleSpec>)

  /** `_policy_chain_name`: characters outside the alphabet become underscores. */
  function ChainName(id: string, alnum: char -> bool): string {
    "policy_" + seq(|id|, i requires 0 <= i < |id| => if alnum(id[i]) then id[i] else '_')
  }

  // An insertion-ordered dictionary keyed by policy id: order decides the script.
  predicate DistinctIds(ps: seq<FirewallPolicySpec>) {
    forall i, j | 0 <= i < j < |ps| :: ps[i].policyId != ps[j].policyId
  }

  /** `d[p.policy_id] = p`: replaced in place, or added at the end. */
  function Set(ps: seq<FirewallPolicySpec>, p: FirewallPolicySpec): seq<FirewallPolicySpec> {
    if ps == [] then [p]
    else if ps[0].policyId == p.policyId then [p] + ps[1..]
    else [ps[0]] + Set(ps[1..], p)
  }

  function Remove(ps: seq<FirewallPolicySpec>, id: string): seq<FirewallPolicySpec> {
    if ps == [] then []
    else if ps[0].policyId == id then ps[1..]
    else [ps[0]] + Remove(ps[1..], id)
  }

  function Find(ps: seq<FirewallPolicySpec>, id: string): Option<FirewallPolicySpec> {
    if ps == [] then None else if ps[0].policyId == id then Some(ps[0]) else Find(ps[1..], id)
  }

  function Chains(ps: seq<FirewallPolicySpec>, alnum: char -> bool): (cs: seq<Chain>)
    ensures |cs| == |ps| && forall i | 0 <= i < |cs| ::
      cs[i] == Chain(ChainName(ps[i].policyId, alnum), ChainBody(ps[i]))
  {
    seq(|ps|, i requires 0 <= i < |ps| => Chain(ChainName(ps[i].policyId, alnum), ChainBody(ps[i])))
  }

  function Jumps(ps: seq<FirewallPolicySpec>, alnum: char -> bool): (js: seq<string>)
    ensures |js| == |ps| && forall i | 0 <= i < |js| :: js[i] == ChainName(ps[i].policyId, alnum)
  {
    seq(|ps|, i requires 0 <= i < |ps| => ChainName(ps[i].policyId, alnum))
  }

  /** `_render` over the given dictionaries. */
  function ScriptOf(ps: seq<FirewallPolicySpec>, nats: seq<NatRuleSpec>, alnum: char -> bool): Script {
    Script(Chains(ps, alnum), Jumps(ps, alnum), nats)
  }

  // ---- What a packet meets ------------------------------------------------------------------

  datatype L4 = TcpPacket | UdpPacket | IcmpPacket | OtherPacket

  datatype Packet = Packet(ipv4: bool, source: nat, destination: nat, l4: L4, dport: nat)

  predicate Carries(pkt: Packet, proto: Proto) {
    match proto
    case Any => true
    case Tcp => pkt.l4.TcpPacket?
    case Udp => pkt.l4.UdpPacket?
    case Icmp => pkt.l4.IcmpPacket?
  }

  /** One expression against a packet; `inNet` is the meaning of a CIDR text. Matching a port
      of a protocol first requires the protocol. */
  predicate Passes(e: Expr, pkt: Packet, inNet: (string, nat) -> bool) {
    match e
    case Saddr(cidr) => pkt.ipv4 && inNet(cidr, pkt.source)
    case Daddr(cidr) => pkt.ipv4 && inNet(cidr, pkt.destination)
    case L4proto(proto) => Carries(pkt, proto)
    case Dport(proto, first, last) => Carries(pkt, proto) && first <= pkt.dport <= last
    case Counter => true
    case Verdict(_) => true
  }

  /** Expressions are tried left to right; the first that fails ends the statement. */
  function RunStatement(s: Statement, pkt: Packet, inNet: (string, nat) -> bool): Option<Action> {
    if s == [] then None
    else if s[0].Verdict? then Some(s[0].action)
    else if Passes(s[0], pkt, inNet) then RunStatement(s[1..], pkt, inNet)
    else None
  }

  /** Statements are tried in order until one gives a verdict. */
  function RunChain(body: seq<Statement>, pkt: Packet, inNet: (string, nat) -> bool): Option<Action> {
    if body == [] then None
    else match RunStatement(body[0], pkt, inNet)
      case Some(a) => Some(a)
      case None => RunChain(body[1..], pkt, inNet)
  }

  /** A chain declared twice is one chain with both bodies. */
  function BodyOf(chains: seq<Chain>, name: string): seq<Statement> {
    if chains == [] then []
    else (if chains[0].name == name then chains[0].body else []) + BodyOf(chains[1..], name)
  }

  /** A verdict inside a jumped-to chain ends the hook. */
  function RunJumps(script: Script, jumps: seq<string>, pkt: Packet, inNet: (string, nat) -> bool): Action {
    if jumps == [] then Accept // the dispatch chain's own policy
    else match RunChain(BodyOf(script.chains, jumps[0]), pkt, inNet)
      case Some(a) => a
      case None => RunJumps(script, jumps[1..], pkt, inNet)
  }

  function Forward(script: Script, pkt: Packet, inNet: (string, nat) -> bool): Action {
    RunJumps(script, script.jumps, pkt, inNet)
  }

  // ---- What a policy means --------------------------------------------------------------------

  predicate RuleMatches(r: FirewallRuleSpec, pkt: Packet, inNet: (string, nat) -> bool) {
    && (r.sourceCidr.Some? ==> pkt.ipv4 && inNet(r.sourceCidr.value, pkt.source))
    && (r.destinationCidr.Some? ==> pkt.ipv4 && inNet(r.destinationCidr.value, pkt.destination))
    && Carries(pkt, r.proto)
    && (HasPorts(r) ==>
          && Carries(pkt, if r.proto.Any? then Tcp else r.proto)
          && FirstPort(r) <= pkt.dport <= LastPort(r))
  }

  /** The action of the first matching rule in declaration order, else the default. */
  function Meaning(p: FirewallPolicySpec, pkt: Packet, inNet: (string, nat) -> bool): Action {
    FirstAction(p.rules, p.defaultAction, pkt, inNet)
  }

  function FirstAction(rules: seq<FirewallRuleSpec>, default: Action, pkt: Packet,
                       inNet: (string, nat) -> bool): Action {
    if rules == [] then default
    else if RuleMatches(rules[0], pkt, inNet) then rules[0].action
    else FirstAction(rules[1..], default, pkt, inNet)
  }

  /** A valid rule matches in plain terms: both networks, the protocol, and, where a first port is
      given, a packet of that protocol, or TCP where none is named, whose port is the first port
      or within the two. */
  lemma MatchesIff(r: FirewallRuleSpec, pkt: Packet, inNet: (string, nat) -> bool)
    requires ValidRule(r)
    ensures RuleMatches(r, pkt, inNet) <==>
      && (r.sourceCidr.Some? ==> pkt.ipv4 && inNet(r.sourceCidr.value, pkt.source))
      && (r.destinationCidr.Some? ==> pkt.ipv4 && inNet(r.destinationCidr.value, pkt.destination))
      && (r.proto == Tcp || (r.proto == Any && r.portStart.Some?) ==> pkt.l4 == TcpPacket)
      && (r.proto == Udp ==> pkt.l4 == UdpPacket)
      && (r.proto == Icmp ==> pkt.l4 == IcmpPacket)
      && (r.portStart.Some? ==>
            if r.portEnd.Some? && r.portEnd.value != 0 then r.portStart.value <= pkt.dport <= r.portEnd.value
            else pkt.dport == r.portStart.value)
  {
  }

  // ---- Translation preserves meaning -----------------------------------------------------------

  lemma RunCons(e: Expr, s: Statement, pkt: Packet, inNet: (string, nat) -> bool)
    requires !e.Verdict?
    ensures RunStatement([e] + s, pkt, inNet) == if Passes(e, pkt, inNet) then RunStatement(s, pkt, inNet) else None
  {
    assert ([e] + s)[1..] == s;
  }

  lemma RunPart(part: Statement, s: Statement, pkt: Packet, inNet: (string, nat) -> bool)
    requires |part| <= 1 && (part != [] ==> !part[0].Verdict?)
    ensures RunStatement(part + s, pkt, inNet) ==
            if part == [] || Passes(part[0], pkt, inNet) then RunStatement(s, pkt, inNet) else None
  {
    if part == [] { assert part + s == s; }
    else { assert part == [part[0]]; RunCons(part[0], s, pkt, inNet); }
  }

  lemma RuleKeepsMeaning(r: FirewallRuleSpec, pkt: Packet, inNet: (string, nat) -> bool)
    requires ValidRule(r)
    ensures RunStatement(RuleStatement(r), pkt, inNet) ==
            if RuleMatches(r, pkt, inNet) then Some(r.action) else None
  {
    var tail := [Counter, Verdict(r.action)];
    assert tail == [Counter] + [Verdict(r.action)];
    RunCons(Counter, [Verdict(r.action)], pkt, inNet);
    var ports := PortPart(r) + tail;
    RunPart(PortPart(r), tail, pkt, inNet);
    var proto := ProtoPart(r) + ports;
    RunPart(ProtoPart(r), ports, pkt, inNet);
    var destination := DestinationPart(r) + proto;
    RunPart(DestinationPart(r), proto, pkt, inNet);
    RunPart(SourcePart(r), destination, pkt, inNet);
  }

  /** How often a statement counts a packet. */
  function Counted(s: Statement, pkt: Packet, inNet: (string, nat) -> bool): nat {
    if s == [] || s[0].Verdict? || !Passes(s[0], pkt, inNet) then 0
    else (if s[0].Counter? then 1 else 0) + Counted(s[1..], pkt, inNet)
  }

  lemma CountPart(part: Statement, s: Statement, pkt: Packet, inNet: (string, nat) -> bool)
    requires |part| <= 1 && (part != [] ==> !part[0].Verdict? && !part[0].Counter?)
    ensures Counted(part + s, pkt, inNet) ==
            if part == [] || Passes(part[0], pkt, inNet) then Counted(s, pkt, inNet) else 0
  {
    if part == [] {
      assert part + s == s;
    } else {
      assert (part + s)[1..] == s;
    }
  }

  /** A rule's counter counts exactly the packets the rule matches, once. */
  lemma RuleCountsMatches(r: FirewallRuleSpec, pkt: Packet, inNet: (string, nat) -> bool)
    requires ValidRule(r)
    ensures Counted(RuleStatement(r), pkt, inNet) == if RuleMatches(r, pkt, inNet) then 1 else 0
  {
    var tail := [Counter, Verdict(r.action)];
    assert tail[1..] == [Verdict(r.action)];
    assert Counted(tail, pkt, inNet) == 1;
    var ports := PortPart(r) + tail;
    CountPart(PortPart(r), tail, pkt, inNet);
    var proto := ProtoPart(r) + ports;
    CountPart(ProtoPart(r), ports, pkt, inNet);
    var destination := DestinationPart(r) + proto;
    CountPart(DestinationPart(r), proto, pkt, inNet);
    CountPart(SourcePart(r), destination, pkt, inNet);
  }

  /** A policy's chain first counts every packet that enters it. */
  lemma ChainCountsAll(p: FirewallPolicySpec, pkt: Packet, inNet: (string, nat) -> bool)
    ensures ChainBody(p) != [] && Counted(ChainBody(p)[0], pkt, inNet) == 1
  {
    var first := ChainBody(p)[0];
    assert first == [Counter] && first[1..] == [];
  }

  lemma {:induction false} RulesKeepMeaning(rules: seq<FirewallRuleSpec>, default: Action, pkt: Packet,
                                            inNet: (string, nat) -> bool, after: seq<Statement>)
    requires forall i | 0 <= i < |rules| :: ValidRule(rules[i])
    ensures RunChain(RuleStatements(rules) + [[Verdict(default)]] + after, pkt, inNet)
            == Some(FirstAction(rules, default, pkt, inNet))
  {
    var body := RuleStatements(rules) + [[Verdict(default)]] + after;
    if rules == [] {
      assert body[0] == [Verdict(default)];
    } else {
      RuleKeepsMeaning(rules[0], pkt, inNet);
      assert body[0] == RuleStatement(rules[0]);
      assert body[1..] == RuleStatements(rules[1..]) + [[Verdict(default)]] + after;
      RulesKeepMeaning(rules[1..], default, pkt, inNet, after);
    }
  }

  ghost predicate ValidPolicy(p: FirewallPolicySpec) {
    forall i | 0 <= i < |p.rules| :: ValidRule(p.rules[i])
  }

  /** On any packet the rendered chain gives the policy's verdict, and statements appended to
      it are never reached. */
  lemma ChainKeepsMeaning(p: FirewallPolicySpec, pkt: Packet, inNet: (string, nat) -> bool, after: seq<Statement>)
    requires ValidPolicy(p)
    ensures RunChain(ChainBody(p) + after, pkt, inNet) == Some(Meaning(p, pkt, inNet))
  {
    var body := ChainBody(p) + after;
    assert body[0] == [Counter] + [];
    RunCons(Counter, [], pkt, inNet);
    assert body[1..] == RuleStatements(p.rules) + [[Verdict(p.defaultAction)]] + after;
    RulesKeepMeaning(p.rules, p.defaultAction, pkt, inNet, after);
  }

  /** The chain of a name is the meaning of the first policy that is written under it. */
  lemma {:induction false} NamedChainKeepsMeaning(ps: seq<FirewallPolicySpec>, i: nat, pkt: Packet,
                                                  inNet: (string, nat) -> bool, alnum: char -> bool)
    requires i < |ps| && ValidPolicy(ps[i])
    requires forall j | 0 <= j < i :: ChainName(ps[j].policyId, alnum) != ChainName(ps[i].policyId, alnum)
    ensures RunChain(BodyOf(Chains(ps, alnum), ChainName(ps[i].policyId, alnum)), pkt, inNet)
            == Some(Meaning(ps[i], pkt, inNet))
  {
    var name := ChainName(ps[i].policyId, alnum);
    var cs := Chains(ps, alnum);
    assert cs[1..] == Chains(ps[1..], alnum);
    if i == 0 {
      ChainKeepsMeaning(ps[0], pkt, inNet, BodyOf(cs[1..], name));
    } else {
      assert BodyOf(cs, name) == BodyOf(cs[1..], name);
      NamedChainKeepsMeaning(ps[1..], i - 1, pkt, inNet, alnum);
    }
  }

  /** Every chain ends in a verdict, so the dispatch chain never gets past its first jump: with
      several policies only the first in dictionary order ever decides. */
  lemma OnlyTheFirstPolicyDecides(ps: seq<FirewallPolicySpec>, nats: seq<NatRuleSpec>, pkt: Packet,
                                  inNet: (string, nat) -> bool, alnum: char -> bool)
    requires forall i | 0 <= i < |ps| :: ValidPolicy(ps[i])
    ensures Forward(ScriptOf(ps, nats, alnum), pkt, inNet) ==
            if ps == [] then Accept else Meaning(ps[0], pkt, inNet)
  {
    if ps != [] { NamedChainKeepsMeaning(ps, 0, pkt, inNet, alnum); }
  }

  /** An accept-all policy stored first silences a drop-all policy stored after it. */
  lemma SecondPolicyIsIgnored(open: FirewallPolicySpec, closed: FirewallPolicySpec, pkt: Packet,
                              inNet: (string, nat) -> bool, alnum: char -> bool)
    requires open.rules == [] && open.defaultAction == Accept
    requires closed.rules == [] && closed.defaultAction == DropPacket
    ensures Meaning(closed, pkt, inNet) == DropPacket
    ensures Forward(ScriptOf([open, closed], [], alnum), pkt, inNet) == Accept
    ensures Forward(ScriptOf([closed, open], [], alnum), pkt, inNet) == DropPacket
  {
    OnlyTheFirstPolicyDecides([open, closed], [], pkt, inNet, alnum);
    OnlyTheFirstPolicyDecides([closed, open], [], pkt, inNet, alnum);
  }

  /** The validity check is needed: a last port alone would be dropped by the rendering. */
  lemma EndPortAloneIsDropped(last: int, pkt: Packet, inNet: (string, nat) -> bool)
    requires 0 < last < pkt.dport
    ensures var r := FirewallRuleSpec(Accept, Any, None, None, None, Some(last));
            !ValidRule(r) && !RuleMatches(r, pkt, inNet) && RunStatement(RuleStatement(r), pkt, inNet) == Some(Accept)
  {
    var r := FirewallRuleSpec(Accept, Any, None, None, None, Some(last));
    assert RuleStatement(r) == [Counter] + [Verdict(Accept)];
    RunCons(Counter, [Verdict(Accept)], pkt, inNet);
  }

  // ---- The adapter -----------------------------------------------------------------------------

  // The two dictionaries, and the script the kernel runs. A call answers Ok with its changed
  // flag, or Err when nft refuses.
  datatype FirewallState = FirewallState(policies: seq<FirewallPolicySpec>, nats: seq<NatRuleSpec>, kernel: Script)

  /** `apply_policy`: the dictionary is updated before nft runs, whatever nft then answers. */
  function ApplyPolicyTo(s: FirewallState, p: FirewallPolicySpec, nftOk: bool,
                         alnum: char -> bool): (Result<bool, ()>, FirewallState) {
    if Find(s.policies, p.policyId) == Some(p) then (Ok(false), s)
    else Push(s.(policies := Set(s.policies, p)), nftOk, alnum)
  }

  function DeletePolicyFrom(s: FirewallState, id: string, nftOk: bool,
                            alnum: char -> bool): (Result<bool, ()>, FirewallState) {
    if Find(s.policies, id).None? then (Ok(false), s)
    else Push(s.(policies := Remove(s.policies, id)), nftOk, alnum)
  }

  /** `_apply_script`: render everything, check it, swap it in. */
  function Push(s: FirewallState, nftOk: bool, alnum: char -> bool): (Result<bool, ()>, FirewallState) {
    if nftOk then (Ok(true), s.(kernel := ScriptOf(s.policies, s.nats, alnum))) else (Err(()), s)
  }

  class NftablesFirewall {
    var policies: seq<FirewallPolicySpec>
    var nats: seq<NatRuleSpec>
    var kernel: Script
    const alnum: char -> bool

    constructor (alnum: char -> bool)
      ensures Value() == FirewallState([], [], ScriptOf([], [], alnum)) && this.alnum == alnum
    {
      policies, nats := [], [];
      kernel := ScriptOf([], [], alnum);
      this.alnum := alnum;
    }

    function Value(): FirewallState
      reads this
    { FirewallState(policies, nats, kernel) }

    method Render(extra: Option<FirewallPolicySpec>) returns (script: Script)
      ensures script == ScriptOf(if extra.Some? then Set(policies, extra.value) else policies, nats, alnum)
    {
      var ps := if extra.Some? then Set(policies, extra.value) else policies;
      var chains: seq<Chain> := [];
      for i := 0 to |ps|
        invariant chains == Chains(ps, alnum)[..i]
      {
        var body := [[Counter]];
        for k := 0 to |ps[i].rules|
          invariant body == [[Counter]] + RuleStatements(ps[i].rules)[..k]
        {
          var statement := RenderRule(ps[i].rules[k]);
          body := body + [statement];
        }
        body := body + [[Verdict(ps[i].defaultAction)]];
        assert body == ChainBody(ps[i]);
        chains := chains + [Chain(ChainName(ps[i].policyId, alnum), body)];
      }
      var jumps: seq<string> := [];
      for i := 0 to |ps|
        invariant jumps == Jumps(ps, alnum)[..i]
      {
        jumps := jumps + [ChainName(ps[i].policyId, alnum)];
      }
      script := Script(chains, jumps, nats);
    }

    /** The script that is checked is the one that applying the policy would render. */
    method ValidatePolicy(policy: FirewallPolicySpec) returns (checkedScript: Script)
      ensures Find(policies, policy.policyId) != Some(policy) ==>
                checkedScript == ApplyPolicyTo(Value(), policy, true, alnum).1.kernel
      ensures Find(policies, policy.policyId) == Some(policy) ==>
                checkedScript == ScriptOf(policies, nats, alnum)
    {
      checkedScript := Render(Some(policy));
      if Find(policies, policy.policyId) == Some(policy) { SetSame(policies, policy); }
    }

    method ApplyPolicy(policy: FirewallPolicySpec, nftOk: bool) returns (r: Result<bool, ()>)
      modifies this
      ensures (r, Value()) == ApplyPolicyTo(old(Value()), policy, nftOk, alnum)
    {
      var existing := Find(policies, policy.policyId);
      if existing == Some(policy) { return Ok(false); }
      policies := Set(policies, policy);
      var script := Render(None);
      if !nftOk { return Err(()); }
      kernel := script;
      return Ok(true);
    }

    method DeletePolicy(id: string, nftOk: bool) returns (r: Result<bool, ()>)
      modifies this
      ensures (r, Value()) == DeletePolicyFrom(old(Value()), id, nftOk, alnum)
    {
      if Find(policies, id).None? { return Ok(false); }
      policies := Remove(policies, id);
      var script := Render(None);
      if !nftOk { return Err(()); }
      kernel := script;
      return Ok(true);
    }
  }

  /** Writing back what is stored changes nothing. */
  lemma {:induction false} SetSame(ps: seq<FirewallPolicySpec>, p: FirewallPolicySpec)
    requires Find(ps, p.policyId) == Some(p)
    ensures Set(ps, p) == ps
  {
    if ps[0].policyId != p.policyId { SetSame(ps[1..], p); }
  }

  /** The ordered dictionary is a dictionary: lookups, and one entry per id. */
  lemma {:induction false} SetLooksUp(ps: seq<FirewallPolicySpec>, p: FirewallPolicySpec, id: string)
    ensures Find(Set(ps, p), id) == if id == p.policyId then Some(p) else Find(ps, id)
  {
    if ps != [] && ps[0].policyId != p.policyId { SetLooksUp(ps[1..], p, id); }
  }

  lemma {:induction false} FindAbsent(ps: seq<FirewallPolicySpec>, id: string)
    requires forall i | 0 <= i < |ps| :: ps[i].policyId != id
    ensures Find(ps, id) == None
  {
    if ps == [] {
    } else {
      FindAbsent(ps[1..], id);
    }
  }

  lemma {:induction false} RemoveLooksUp(ps: seq<FirewallPolicySpec>, gone: string, id: string)
    requires DistinctIds(ps)
    ensures Find(Remove(ps, gone), id) == if id == gone then None else Find(ps, id)
  {
    if ps == [] {
    } else {
      if ps[0].policyId == gone { FindAbsent(ps[1..], gone); } else { RemoveLooksUp(ps[1..], gone, id); }
    }
  }

  /** Writing and removing keep one entry per id. */
  lemma {:induction false} DictionaryStaysKeyed(ps: seq<FirewallPolicySpec>, p: FirewallPolicySpec, gone: string)
    requires DistinctIds(ps)
    ensures DistinctIds(Set(ps, p)) && DistinctIds(Remove(ps, gone))
    ensures forall q | q in Set(ps, p) :: q == p || q in ps
    ensures forall q | q in Remove(ps, gone) :: q in ps
  {
    if ps == [] {
    } else {
      var tail := ps[1..];
      assert forall q | q in tail :: q in ps && q.policyId != ps[0].policyId;
      DictionaryStaysKeyed(tail, p, gone);
      if ps[0].policyId == p.policyId { KeyedCons(p, tail); } else { KeyedCons(ps[0], Set(tail, p)); }
      if ps[0].policyId != gone { KeyedCons(ps[0], Remove(tail, gone)); }
    }
  }

  lemma KeyedCons(p: FirewallPolicySpec, ps: seq<FirewallPolicySpec>)
    requires DistinctIds(ps) && forall q | q in ps :: q.policyId != p.policyId
    ensures DistinctIds([p] + ps)
  {
    assert forall i | 0 <= i < |ps| :: ps[i] in ps;
  }

  /** The kernel runs what the dictionaries say. */
  predicate InSync(s: FirewallState, alnum: char -> bool) {
    s.kernel == ScriptOf(s.policies, s.nats, alnum)
  }

  /** The stored policy of this id is written as p is. */
  predicate SameChain(ps: seq<FirewallPolicySpec>, p: FirewallPolicySpec) {
    Find(ps, p.policyId).Some? && ChainBody(Find(ps, p.policyId).value) == ChainBody(p)
  }

  lemma {:induction false} SetKeepsChains(ps: seq<FirewallPolicySpec>, p: FirewallPolicySpec, alnum: char -> bool)
    ensures Chains(Set(ps, p), alnum) == Chains(ps, alnum) <==> SameChain(ps, p)
    ensures Find(ps, p.policyId).Some? ==> Jumps(Set(ps, p), alnum) == Jumps(ps, alnum)
  {
    assert |Chains(Set(ps, p), alnum)| == |Set(ps, p)| && |Chains(ps, alnum)| == |ps|;
    if ps == [] {
    } else {
      var rest := ps[1..];
      ChainsCons(ps[0], rest, alnum);
      assert ps == [ps[0]] + rest;
      if ps[0].policyId == p.policyId {
        ChainsCons(p, rest, alnum);
        assert Chains(ps, alnum)[0].body == ChainBody(ps[0]);
        assert Chains([p] + rest, alnum)[0].body == ChainBody(p);
      } else {
        SetKeepsChains(rest, p, alnum);
        ChainsCons(ps[0], Set(rest, p), alnum);
        assert Chains([ps[0]] + Set(rest, p), alnum)[1..] == Chains(Set(rest, p), alnum);
        assert Chains(ps, alnum)[1..] == Chains(rest, alnum);
      }
    }
  }

  lemma ChainsCons(p: FirewallPolicySpec, ps: seq<FirewallPolicySpec>, alnum: char -> bool)
    ensures Chains([p] + ps, alnum) == [Chain(ChainName(p.policyId, alnum), ChainBody(p))] + Chains(ps, alnum)
    ensures Jumps([p] + ps, alnum) == [ChainName(p.policyId, alnum)] + Jumps(ps, alnum)
  {
  }

  /** From an in-sync state an apply stays in sync exactly when nft accepts, or the policy stored
      under the id already has the same chain. */
  lemma ApplySyncIff(s: FirewallState, p: FirewallPolicySpec, nftOk: bool, alnum: char -> bool)
    requires InSync(s, alnum)
    ensures InSync(ApplyPolicyTo(s, p, nftOk, alnum).1, alnum) <==> nftOk || SameChain(s.policies, p)
  {
    SetKeepsChains(s.policies, p, alnum);
  }

  lemma DeleteSyncIff(s: FirewallState, id: string, nftOk: bool, alnum: char -> bool)
    requires InSync(s, alnum) && DistinctIds(s.policies)
    ensures InSync(DeletePolicyFrom(s, id, nftOk, alnum).1, alnum) <==> nftOk || Find(s.policies, id).None?
  {
    if Find(s.policies, id).Some? { RemoveShortens(s.policies, id); }
  }

  lemma {:induction false} RemoveShortens(ps: seq<FirewallPolicySpec>, id: string)
    requires Find(ps, id).Some?
    ensures |Remove(ps, id)| == |ps| - 1
  {
    if ps[0].policyId != id { RemoveShortens(ps[1..], id); }
  }

  // ---- Over runs ---------------------------------------------------------------------------------

  datatype FirewallCall = ApplyCall(policy: FirewallPolicySpec, nftOk: bool) | DeleteCall(id: string, nftOk: bool)

  function CallOn(s: FirewallState, c: FirewallCall, alnum: char -> bool): (Result<bool, ()>, FirewallState) {
    match c
    case ApplyCall(p, nftOk) => ApplyPolicyTo(s, p, nftOk, alnum)
    case DeleteCall(id, nftOk) => DeletePolicyFrom(s, id, nftOk, alnum)
  }

  function CallsOn(s: FirewallState, calls: seq<FirewallCall>, alnum: char -> bool): FirewallState {
    if calls == [] then s
    else CallOn(CallsOn(s, calls[..|calls| - 1], alnum), calls[|calls| - 1], alnum).1
  }

  /** Call i answered that it changed the firewall. */
  predicate Loads(s: FirewallState, calls: seq<FirewallCall>, i: nat, alnum: char -> bool) {
    i < |calls| && CallOn(CallsOn(s, calls[..i], alnum), calls[i], alnum).0 == Ok(true)
  }

  /** One past the last of the first n numbers that satisfy p, or 0. */
  function PastLast(p: nat -> bool, n: nat): (k: nat)
    ensures k <= n && (k > 0 ==> p(k - 1)) && forall i | k <= i < n :: !p(i)
  {
    if n == 0 then 0 else if p(n - 1) then n else PastLast(p, n - 1)
  }

  /** How many of the first n calls had been made when the kernel was last loaded. */
  function LastLoad(s: FirewallState, calls: seq<FirewallCall>, n: nat, alnum: char -> bool): (k: nat)
    ensures k <= n
  {
    PastLast((i: nat) => Loads(s, calls, i, alnum), n)
  }

  lemma CallLoadsOrKeeps(s: FirewallState, c: FirewallCall, alnum: char -> bool)
    ensures var r := CallOn(s, c, alnum);
      && r.1.nats == s.nats
      && r.1.kernel == if r.0 == Ok(true) then ScriptOf(r.1.policies, s.nats, alnum) else s.kernel
  {
  }

  lemma OneMoreCall(s: FirewallState, calls: seq<FirewallCall>, i: nat, alnum: char -> bool)
    requires i < |calls|
    ensures CallsOn(s, calls[..i + 1], alnum) == CallOn(CallsOn(s, calls[..i], alnum), calls[i], alnum).1
  {
    assert calls[..i + 1][..i] == calls[..i];
  }

  lemma KernelStep(before: FirewallState, answer: Result<bool, ()>, after: FirewallState,
                   loaded: seq<FirewallPolicySpec>, alnum: char -> bool)
    requires before.kernel == ScriptOf(loaded, before.nats, alnum) && after.nats == before.nats
    requires after.kernel == if answer == Ok(true) then ScriptOf(after.policies, before.nats, alnum) else before.kernel
    ensures after.kernel == ScriptOf(if answer == Ok(true) then after.policies else loaded, before.nats, alnum)
  {
  }

  /** The policies as they stood when the kernel was last loaded, among the first n calls. */
  function LoadedAt(s: FirewallState, calls: seq<FirewallCall>, n: nat, alnum: char -> bool): seq<FirewallPolicySpec>
    requires n <= |calls|
  {
    CallsOn(s, calls[..LastLoad(s, calls, n, alnum)], alnum).policies
  }

  lemma LoadedStep(s: FirewallState, calls: seq<FirewallCall>, n: nat, alnum: char -> bool)
    requires 0 < n <= |calls|
    ensures LoadedAt(s, calls, n, alnum) ==
      if CallOn(CallsOn(s, calls[..n - 1], alnum), calls[n - 1], alnum).0 == Ok(true)
      then CallsOn(s, calls[..n], alnum).policies else LoadedAt(s, calls, n - 1, alnum)
  {
    LastLoadStep(s, calls, n, alnum);
  }

  lemma {:induction false} KernelAt(s: FirewallState, calls: seq<FirewallCall>, n: nat, alnum: char -> bool)
    requires InSync(s, alnum) && n <= |calls|
    ensures var t := CallsOn(s, calls[..n], alnum);
      t.nats == s.nats && t.kernel == ScriptOf(LoadedAt(s, calls, n, alnum), s.nats, alnum)
  {
    if n == 0 {
    } else {
      var before, c := CallsOn(s, calls[..n - 1], alnum), calls[n - 1];
      var loaded := LoadedAt(s, calls, n - 1, alnum);
      KernelAt(s, calls, n - 1, alnum);
      OneMoreCall(s, calls, n - 1, alnum);
      CallLoadsOrKeeps(before, c, alnum);
      LoadedStep(s, calls, n, alnum);
      KernelStep(before, CallOn(before, c, alnum).0, CallsOn(s, calls[..n], alnum), loaded, alnum);
    }
  }

  lemma LastLoadStep(s: FirewallState, calls: seq<FirewallCall>, n: nat, alnum: char -> bool)
    requires 0 < n <= |calls|
    ensures LastLoad(s, calls, n, alnum) ==
      if CallOn(CallsOn(s, calls[..n - 1], alnum), calls[n - 1], alnum).0 == Ok(true) then n
      else LastLoad(s, calls, n - 1, alnum)
  {
    var loads := (i: nat) => Loads(s, calls, i, alnum);
    assert PastLast(loads, n) == if loads(n - 1) then n else PastLast(loads, n - 1);
  }

  /** After any applies and deletes, whatever nft answers, the kernel runs the script of the
      policies as they stood after the last call that answered `True`. */
  lemma KernelIsLastLoad(s: FirewallState, calls: seq<FirewallCall>, alnum: char -> bool)
    requires InSync(s, alnum)
    ensures var t := CallsOn(s, calls, alnum); var k := LastLoad(s, calls, |calls|, alnum);
      && t.nats == s.nats
      && t.kernel == ScriptOf(CallsOn(s, calls[..k], alnum).policies, s.nats, alnum)
      && (k > 0 ==> Loads(s, calls, k - 1, alnum)) && forall i: nat | k <= i < |calls| :: !Loads(s, calls, i, alnum)
  {
    KernelAt(s, calls, |calls|, alnum);
    assert calls[..|calls|] == calls;
    var loads := (i: nat) => Loads(s, calls, i, alnum);
    assert forall i: nat :: loads(i) == Loads(s, calls, i, alnum);
  }

  /** The same chains under the same names, in the same order. */
  ghost predicate SameChains(ps: seq<FirewallPolicySpec>, qs: seq<FirewallPolicySpec>, alnum: char -> bool) {
    |ps| == |qs| && forall i | 0 <= i < |ps| :: SameNamedChain(ps[i], qs[i], alnum)
  }

  predicate SameNamedChain(p: FirewallPolicySpec, q: FirewallPolicySpec, alnum: char -> bool) {
    ChainName(p.policyId, alnum) == ChainName(q.policyId, alnum) && ChainBody(p) == ChainBody(q)
  }

  lemma SameScriptIff(ps: seq<FirewallPolicySpec>, qs: seq<FirewallPolicySpec>, nats: seq<NatRuleSpec>,
                      alnum: char -> bool)
    ensures ScriptOf(ps, nats, alnum) == ScriptOf(qs, nats, alnum) <==> SameChains(ps, qs, alnum)
  {
    var a, b := Chains(ps, alnum), Chains(qs, alnum);
    if SameChains(ps, qs, alnum) {
      assert forall i | 0 <= i < |ps| :: SameNamedChain(ps[i], qs[i], alnum);
      assert a == b && Jumps(ps, alnum) == Jumps(qs, alnum);
    }
    if a == b {
      forall i | 0 <= i < |ps| ensures SameNamedChain(ps[i], qs[i], alnum) { assert a[i] == b[i]; }
    }
  }

  /** So kernel and dictionaries are in step after a run if and only if the policies stored now
      have the chains of those stored after that call. */
  lemma RunSyncIff(s: FirewallState, calls: seq<FirewallCall>, alnum: char -> bool)
    requires InSync(s, alnum)
    ensures var k := LastLoad(s, calls, |calls|, alnum);
      InSync(CallsOn(s, calls, alnum), alnum) <==>
      SameChains(CallsOn(s, calls, alnum).policies, CallsOn(s, calls[..k], alnum).policies, alnum)
  {
    KernelIsLastLoad(s, calls, alnum);
    var k := LastLoad(s, calls, |calls|, alnum);
    SameScriptIff(CallsOn(s, calls, alnum).policies, CallsOn(s, calls[..k], alnum).policies, s.nats, alnum);
  }

  /** A run in which nft refuses nothing stays in step throughout. */
  lemma {:induction false} AcceptedRunsStayInSync(s: FirewallState, calls: seq<FirewallCall>, alnum: char -> bool)
    requires InSync(s, alnum) && forall i | 0 <= i < |calls| :: calls[i].nftOk
    ensures InSync(CallsOn(s, calls, alnum), alnum)
  {
    if calls == [] {
    } else {
      AcceptedRunsStayInSync(s, calls[..|calls| - 1], alnum);
    }
  }

  /** A failed apply cannot be repaired by repeating it: the retry sees the policy already
      stored, reports no change, and leaves the kernel as it was. */
  lemma RetryAfterFailureIsNoop(s: FirewallState, p: FirewallPolicySpec, alnum: char -> bool)
    requires Find(s.policies, p.policyId) != Some(p)
    ensures var failed := ApplyPolicyTo(s, p, false, alnum);
            var retried := ApplyPolicyTo(failed.1, p, true, alnum);
            failed.0.Err? && retried.0 == Ok(false) && retried.1.kernel == s.kernel
  {
    SetLooksUp(s.policies, p, p.policyId);
  }

  /** Nor can a refused delete: the retry finds nothing to delete, and the rules stay loaded. */
  lemma RetryAfterFailedDeleteIsNoop(s: FirewallState, id: string, alnum: char -> bool)
    requires DistinctIds(s.policies) && Find(s.policies, id).Some?
    ensures var failed := DeletePolicyFrom(s, id, false, alnum);
            var retried := DeletePolicyFrom(failed.1, id, true, alnum);
            failed.0.Err? && retried.0 == Ok(false) && retried.1.kernel == s.kernel
  {
    RemoveLooksUp(s.policies, id, id);
  }

  // ---- What the dictionary and the kernel hold after a call -----------------------------------

  /** An apply answers `False` exactly when the policy is stored already, and otherwise what nft
      says; either way the id then finds the policy and every other id what it found before. */
  lemma ApplyStores(s: FirewallState, p: FirewallPolicySpec, nftOk: bool, alnum: char -> bool, id: string)
    ensures var r := ApplyPolicyTo(s, p, nftOk, alnum);
      && r.0 == (if Find(s.policies, p.policyId) == Some(p) then Ok(false) else if nftOk then Ok(true) else Err(()))
      && Find(r.1.policies, id) == (if id == p.policyId then Some(p) else Find(s.policies, id))
      && r.1.nats == s.nats
  {
    SetLooksUp(s.policies, p, id);
  }

  /** A delete answers `False` exactly when nothing is stored, and otherwise what nft says; either
      way the id then finds nothing and every other id what it found before. */
  lemma DeleteRemoves(s: FirewallState, gone: string, nftOk: bool, alnum: char -> bool, id: string)
    requires DistinctIds(s.policies)
    ensures var r := DeletePolicyFrom(s, gone, nftOk, alnum);
      && r.0 == (if Find(s.policies, gone).None? then Ok(false) else if nftOk then Ok(true) else Err(()))
      && Find(r.1.policies, id) == (if id == gone then None else Find(s.policies, id))
      && r.1.nats == s.nats
  {
    RemoveLooksUp(s.policies, gone, id);
  }

  /** What the calls on an id leave there; None: no call was on it. */
  function LastOn(calls: seq<FirewallCall>, id: string): Option<Option<FirewallPolicySpec>> {
    if calls == [] then None
    else
      match calls[|calls| - 1]
      case ApplyCall(p, _) => if p.policyId == id then Some(Some(p)) else LastOn(calls[..|calls| - 1], id)
      case DeleteCall(gone, _) => if gone == id then Some(None) else LastOn(calls[..|calls| - 1], id)
  }

  lemma CallKeepsKeyed(s: FirewallState, c: FirewallCall, alnum: char -> bool)
    requires DistinctIds(s.policies)
    ensures DistinctIds(CallOn(s, c, alnum).1.policies)
  {
    match c
    case ApplyCall(p, _) => DictionaryStaysKeyed(s.policies, p, "");
    case DeleteCall(id, _) => DictionaryStaysKeyed(s.policies, FirewallPolicySpec(id, Accept, []), id);
  }

  /** Over any run, whatever nft answers, the dictionary finds at each id what the last call on
      that id left. */
  lemma {:induction false} RunsLeave(s: FirewallState, calls: seq<FirewallCall>, alnum: char -> bool, id: string)
    requires DistinctIds(s.policies)
    ensures var t := CallsOn(s, calls, alnum);
      DistinctIds(t.policies) && Find(t.policies, id) == OrElse(LastOn(calls, id), Find(s.policies, id))
  {
    if calls == [] {
    } else {
      var n := |calls| - 1;
      var t := CallsOn(s, calls[..n], alnum);
      RunsLeave(s, calls[..n], alnum, id);
      CallKeepsKeyed(t, calls[n], alnum);
      match calls[n] {
        case ApplyCall(p, nftOk) => ApplyStores(t, p, nftOk, alnum, id);
        case DeleteCall(gone, nftOk) => DeleteRemoves(t, gone, nftOk, alnum, id);
      }
    }
  }

  function Ids(ps: seq<FirewallPolicySpec>): (ids: seq<string>)
    ensures |ids| == |ps| && forall i | 0 <= i < |ps| :: ids[i] == ps[i].policyId
  {
    seq(|ps|, i requires 0 <= i < |ps| => ps[i].policyId)
  }

  /** Writing keeps the order of the ids; a new one comes last. */
  lemma {:induction false} SetKeepsOrder(ps: seq<FirewallPolicySpec>, p: FirewallPolicySpec)
    ensures Ids(Set(ps, p)) == if Find(ps, p.policyId).Some? then Ids(ps) else Ids(ps) + [p.policyId]
  {
    if ps == [] {
    } else {
      SetKeepsOrder(ps[1..], p);
      IdsCons(ps[0], ps[1..]);
      IdsCons(p, ps[1..]);
      IdsCons(ps[0], Set(ps[1..], p));
      assert ps == [ps[0]] + ps[1..];
      assert [ps[0].policyId] + (Ids(ps[1..]) + [p.policyId]) == Ids(ps) + [p.policyId];
    }
  }

  lemma IdsCons(p: FirewallPolicySpec, ps: seq<FirewallPolicySpec>)
    ensures Ids([p] + ps) == [p.policyId] + Ids(ps)
  {
  }

  /** The policies of other ids, in their order. */
  function Others(ps: seq<FirewallPolicySpec>, id: string): seq<FirewallPolicySpec> {
    if ps == [] then [] else (if ps[0].policyId != id then [ps[0]] else []) + Others(ps[1..], id)
  }

  lemma {:induction false} OthersOfAbsent(ps: seq<FirewallPolicySpec>, id: string)
    requires forall i | 0 <= i < |ps| :: ps[i].policyId != id
    ensures Others(ps, id) == ps
  {
    if ps == [] {
    } else {
      OthersOfAbsent(ps[1..], id);
    }
  }

  lemma {:induction false} RemoveKeepsOthers(ps: seq<FirewallPolicySpec>, id: string)
    requires DistinctIds(ps)
    ensures Remove(ps, id) == Others(ps, id)
  {
    if ps == [] {
    } else if ps[0].policyId == id {
      OthersOfAbsent(ps[1..], id);
    } else {
      RemoveKeepsOthers(ps[1..], id);
    }
  }

  /** After an accepted delete the kernel gives the verdict of the first remaining policy, and
      accepts everything when none remains; its masquerade rules are the stored ones. */
  lemma AcceptedDeleteDecides(s: FirewallState, id: string, pkt: Packet, inNet: (string, nat) -> bool,
                              alnum: char -> bool)
    requires DistinctIds(s.policies) && Find(s.policies, id).Some?
    requires forall i | 0 <= i < |s.policies| :: ValidPolicy(s.policies[i])
    ensures var k := DeletePolicyFrom(s, id, true, alnum).1.kernel; var left := Others(s.policies, id);
      && Forward(k, pkt, inNet) == (if left == [] then Accept else Meaning(left[0], pkt, inNet))
      && k.masquerade == s.nats
  {
    RemoveKeepsOthers(s.policies, id);
    OthersAmong(s.policies, id);
    OnlyTheFirstPolicyDecides(Others(s.policies, id), s.nats, pkt, inNet, alnum);
  }

  lemma {:induction false} OthersAmong(ps: seq<FirewallPolicySpec>, id: string)
    ensures forall p | p in Others(ps, id) :: p in ps && p.policyId != id
  {
    if ps == [] {
    } else {
      OthersAmong(ps[1..], id);
      assert ps == [ps[0]] + ps[1..];
    }
  }

  /** After an accepted apply: the new policy decides if it is the first, else the one before it. */
  lemma AcceptedApplyDecides(s: FirewallState, p: FirewallPolicySpec, pkt: Packet, inNet: (string, nat) -> bool,
                             alnum: char -> bool)
    requires Find(s.policies, p.policyId) != Some(p) && ValidPolicy(p)
    requires forall i | 0 <= i < |s.policies| :: ValidPolicy(s.policies[i])
    ensures var k := ApplyPolicyTo(s, p, true, alnum).1.kernel;
      && Forward(k, pkt, inNet) ==
           Meaning(if s.policies == [] || s.policies[0].policyId == p.policyId then p else s.policies[0], pkt, inNet)
      && k.masquerade == s.nats
  {
    var ps := Set(s.policies, p);
    SetAmong(s.policies, p);
    forall i | 0 <= i < |ps| ensures ValidPolicy(ps[i]) { assert ps[i] in ps; }
    OnlyTheFirstPolicyDecides(ps, s.nats, pkt, inNet, alnum);
  }

  lemma {:induction false} SetAmong(ps: seq<FirewallPolicySpec>, p: FirewallPolicySpec)
    ensures forall q | q in Set(ps, p) :: q == p || q in ps
  {
    if ps == [] {
    } else {
      SetAmong(ps[1..], p);
      assert ps == [ps[0]] + ps[1..];
    }
  }

  /** Chain names keep the alphabet's characters in place, so ids of such characters never share
      a chain. */
  lemma ChainNamesApart(a: string, b: string, alnum: char -> bool)
    requires (forall c | c in a :: alnum(c)) && (forall c | c in b :: alnum(c))
    ensures ChainName(a, alnum) == "policy_" + a
    ensures ChainName(a, alnum) == ChainName(b, alnum) <==> a == b
  {
    AlnumName(a, alnum);
    AlnumName(b, alnum);
    assert ("policy_" + a)[7..] == a && ("policy_" + b)[7..] == b;
  }

  lemma AlnumName(a: string, alnum: char -> bool)
    requires forall c | c in a :: alnum(c)
    ensures ChainName(a, alnum) == "policy_" + a
  {
    assert forall i | 0 <= i < |a| :: a[i] in a;
  }
}
