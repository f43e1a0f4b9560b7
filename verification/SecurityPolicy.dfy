/** A security policy: filter rules kept in priority order, and the artefact compiled from them. */
module SecurityPolicy {
  import opened Common
  import opened Ordering

  /** A rule without its counters. */
  datatype Clause = Clause(
    ruleId: string, priority: int, direction: string, action: string,
    sourceType: string, sourceValue: string, destinationType: string, destinationValue: string,
    serviceObjectId: Option<string>, enabled: bool, comment: string)

  datatype Status = Draft | Compiled | Applied | Failed

  /** The policy as a value; the rules without their counters. */
  datatype Policy = Policy(
    name: string, description: string, labels: Dict,
    rules: seq<Clause>, status: Status, ruleset: Option<string>,
    compiledAt: Option<int>, appliedAt: Option<int>, updatedAt: int)

  predicate ByPriority(a: Clause, b: Clause) { a.priority <= b.priority }

  function Filter<T>(s: seq<T>, p: T -> bool): seq<T> {
    if s == [] then [] else (if p(s[0]) then [s[0]] else []) + Filter(s[1..], p)
  }

  function NotNamed(ruleId: string): Clause -> bool { (c: Clause) => c.ruleId != ruleId }

  predicate Names(rules: seq<Clause>, ruleId: string) { exists c :: c in rules && c.ruleId == ruleId }

  // ---- The calls -------------------------------------------------------------------------

  datatype Call =
    | AddRule(rule: Clause, now: int)
    | RemoveRule(ruleId: string, now: int)
    | MarkCompiled(ruleset: string, now: int)
    | MarkApplied(now: int)
    | MarkFailed(now: int)
    | UpdateCounters(ruleId: string)
    | Update(name: Option<string>, description: Option<string>, labels: Option<Dict>, now: int)

  /** The calls that do not raise. */
  predicate Accepts(p: Policy, c: Call) {
    match c
    case RemoveRule(id, _) => Names(p.rules, id)
    case MarkApplied(_) => p.status == Compiled
    case UpdateCounters(id) => Names(p.rules, id)
    case _ => true
  }

  predicate Renews(p: Policy, c: Call)
    requires c.Update?
  {
    || (c.name.Some? && c.name.value != p.name)
    || (c.description.Some? && c.description.value != p.description)
    || c.labels.Some?
  }

  /** The policy after a call; a call that raises leaves it as it was. */
  function Step(p: Policy, c: Call): Policy {
    if !Accepts(p, c) then p else
    match c
    case AddRule(r, now) =>
      p.(rules := Sort(ByPriority, p.rules + [r]), status := Draft, ruleset := None, updatedAt := now)
    case RemoveRule(id, now) =>
      p.(rules := Filter(p.rules, NotNamed(id)), status := Draft, ruleset := None, updatedAt := now)
    case MarkCompiled(text, now) =>
      p.(ruleset := Some(text), compiledAt := Some(now), status := Compiled, updatedAt := now)
    case MarkApplied(now) => p.(appliedAt := Some(now), status := Applied, updatedAt := now)
    case MarkFailed(now) => p.(status := Failed, updatedAt := now)
    case UpdateCounters(_) => p
    case Update(name, description, labels, now) =>
      p.(name := OrElse(name, p.name), description := OrElse(description, p.description),
         labels := OrElse(labels, p.labels), updatedAt := if Renews(p, c) then now else p.updatedAt)
  }

  predicate Empty(p: Policy) {
    p.rules == [] && p.status == Draft && p.ruleset == None
  }

  function Run(p: Policy, calls: seq<Call>): Policy {
    if calls == [] then p
    else Step(Run(p, calls[..|calls| - 1]), calls[|calls| - 1])
  }

  // ---- Sorting and filtering ---------------------------------------------------------------

  lemma ByPriorityOrders()
    ensures TotalPreorder(ByPriority)
  {}

  lemma {:induction false} FilterAppend<T>(a: seq<T>, b: seq<T>, p: T -> bool)
    ensures Filter(a + b, p) == Filter(a, p) + Filter(b, p)
  {
    if a == [] {
      assert a + b == b;
    } else {
      var head := if p(a[0]) then [a[0]] else [];
      assert (a + b)[0] == a[0] && (a + b)[1..] == a[1..] + b;
      FilterAppend(a[1..], b, p);
      assert Filter(a + b, p) == head + (Filter(a[1..], p) + Filter(b, p));
      assert Filter(a, p) == head + Filter(a[1..], p);
    }
  }

  lemma {:induction false} FilterIn<T>(s: seq<T>, p: T -> bool)
    ensures forall x :: x in Filter(s, p) <==> x in s && p(x)
    ensures |Filter(s, p)| <= |s|
    ensures |Filter(s, p)| == |s| ==> Filter(s, p) == s
    ensures (forall x | x in s :: p(x)) ==> Filter(s, p) == s
  {
    if s == [] {
    } else {
      assert s == [s[0]] + s[1..];
      FilterIn(s[1..], p);
    }
  }

  lemma InsertFirst<T>(le: (T, T) -> bool, s: seq<T>, x: T)
    requires forall y | y in s :: !le(y, x)
    ensures Insert(le, s, x) == [x] + s
  {}

  lemma {:induction false} FilterInsert<T(!new)>(le: (T, T) -> bool, s: seq<T>, x: T, p: T -> bool)
    requires TotalPreorder(le) && Sorted(le, s)
    ensures Filter(Insert(le, s, x), p)
         == if p(x) then Insert(le, Filter(s, p), x) else Filter(s, p)
  {
    if s == [] {
    } else if le(s[0], x) {
      FilterInsert(le, s[1..], x, p);
      var r := Insert(le, s[1..], x);
      assert ([s[0]] + r)[1..] == r;
      if p(s[0]) {
        var f := [s[0]] + Filter(s[1..], p);
        assert f[1..] == Filter(s[1..], p);
      } else {
        assert Filter(s, p) == Filter(s[1..], p);
        assert Filter([s[0]] + r, p) == Filter(r, p);
      }
    } else {
      assert ([x] + s)[1..] == s;
      FilterIn(s, p);
      forall y | y in Filter(s, p) ensures !le(y, x) { assert le(s[0], y); }
      InsertFirst(le, Filter(s, p), x);
    }
  }

  /** Removing elements and sorting commute. */
  lemma {:induction false} FilterSort<T(!new)>(le: (T, T) -> bool, s: seq<T>, p: T -> bool)
    requires TotalPreorder(le)
    ensures Filter(Sort(le, s), p) == Sort(le, Filter(s, p))
  {
    if s == [] {
    } else {
      var init, x := s[..|s| - 1], s[|s| - 1];
      assert s == init + [x];
      FilterSort(le, init, p);
      SortSorts(le, init);
      FilterInsert(le, Sort(le, init), x, p);
      FilterAppend(init, [x], p);
      if p(x) {
        assert Filter(s, p) == Filter(init, p) + [x];
      } else {
        assert Filter(s, p) == Filter(init, p);
      }
    }
  }

  // ---- What every run keeps ------------------------------------------------------------------

  /** The rules added and not removed since, oldest first. */
  function Inserted(calls: seq<Call>): seq<Clause> {
    if calls == [] then [] else
    var before, c := Inserted(calls[..|calls| - 1]), calls[|calls| - 1];
    match c
    case AddRule(r, _) => before + [r]
    case RemoveRule(id, _) => Filter(before, NotNamed(id))
    case _ => before
  }

  /** After any calls the rules are the surviving insertions, sorted by priority. */
  lemma {:induction false} RulesAreSortedInsertions(p: Policy, calls: seq<Call>)
    requires Empty(p)
    ensures Run(p, calls).rules == Sort(ByPriority, Inserted(calls))
  {
    ByPriorityOrders();
    if calls == [] {
    } else {
      var init, c := calls[..|calls| - 1], calls[|calls| - 1];
      RulesAreSortedInsertions(p, init);
      var q := Run(p, init);
      var before := Inserted(init);
      match c {
        case AddRule(r, now) =>
          SortSorts(ByPriority, before);
          SortFixed(ByPriority, q.rules);
          assert (q.rules + [r])[..|q.rules|] == q.rules;
          assert (before + [r])[..|before|] == before;
        case RemoveRule(id, now) =>
          FilterSort(ByPriority, before, NotNamed(id));
          FilterIn(q.rules, NotNamed(id));
        case _ =>
      }
    }
  }

  /** Always in priority order, rules of one priority in the order they were added. */
  lemma AlwaysSorted(p: Policy, calls: seq<Call>, x: Clause)
    requires Empty(p)
    ensures Sorted(ByPriority, Run(p, calls).rules)
    ensures multiset(Run(p, calls).rules) == multiset(Inserted(calls))
    ensures Ties(ByPriority, Run(p, calls).rules, x) == Ties(ByPriority, Inserted(calls), x)
  {
    ByPriorityOrders();
    RulesAreSortedInsertions(p, calls);
    SortSorts(ByPriority, Inserted(calls));
    SortStable(ByPriority, Inserted(calls), x);
  }

  /** Two histories that keep the same rules, no two of one priority, hold the same tuple. */
  lemma InsertionOrderIrrelevant(p: Policy, a: seq<Call>, q: Policy, b: seq<Call>)
    requires Empty(p) && Empty(q)
    requires multiset(Inserted(a)) == multiset(Inserted(b))
    requires forall x, y | x in Inserted(a) && y in Inserted(a) && x.priority == y.priority :: x == y
    ensures Run(p, a).rules == Run(q, b).rules
  {
    ByPriorityOrders();
    RulesAreSortedInsertions(p, a);
    RulesAreSortedInsertions(q, b);
    SortSorts(ByPriority, Inserted(a));
    SortSorts(ByPriority, Inserted(b));
    SortedUnique(ByPriority, Run(p, a).rules, Run(q, b).rules);
  }

  /** What the last `mark_compiled` of a run compiled: the rules then held, text and time. */
  function LastCompiled(p: Policy, calls: seq<Call>): Option<(seq<Clause>, string, int)> {
    if calls == [] then None else
    var init, c := calls[..|calls| - 1], calls[|calls| - 1];
    if c.MarkCompiled? then Some((Run(p, init).rules, c.ruleset, c.now)) else LastCompiled(p, init)
  }

  /** A stored artefact was compiled from exactly the rules held now; a draft stores none. */
  lemma {:induction false} ArtefactIsFresh(p: Policy, calls: seq<Call>)
    requires Empty(p)
    ensures var q := Run(p, calls);
      && (q.status == Compiled || q.status == Applied ==> q.ruleset.Some?)
      && (q.status == Draft ==> q.ruleset.None?)
      && (q.ruleset.Some? ==>
            q.compiledAt.Some? && LastCompiled(p, calls) == Some((q.rules, q.ruleset.value, q.compiledAt.value)))
      && (q.status == Applied ==> q.appliedAt.Some?)
  {
    if calls == [] {
    } else {
      ArtefactIsFresh(p, calls[..|calls| - 1]);
    }
  }

  // ---- What each call leaves ------------------------------------------------------------------

  /** The last call that was accepted and that p selects, if any. */
  function LastAccepted(p: Policy, calls: seq<Call>, selects: (Policy, Call) -> bool): Option<Call> {
    if calls == [] then None else
    var init, c := calls[..|calls| - 1], calls[|calls| - 1];
    if Accepts(Run(p, init), c) && selects(Run(p, init), c) then Some(c) else LastAccepted(p, init, selects)
  }

  predicate SetsStatus(p: Policy, c: Call) { !c.UpdateCounters? && !c.Update? }

  predicate Stamps(p: Policy, c: Call) { !c.UpdateCounters? && (c.Update? ==> Renews(p, c)) }

  predicate IsApply(p: Policy, c: Call) { c.MarkApplied? }

  predicate IsCompile(p: Policy, c: Call) { c.MarkCompiled? }

  /** The status is what the last accepted call that concerns it says: a failure fails a policy
      whatever it was before, applied included. */
  lemma {:induction false} StatusIsLastWord(p: Policy, calls: seq<Call>)
    ensures Run(p, calls).status ==
      match LastAccepted(p, calls, SetsStatus)
      case None => p.status
      case Some(c) => if c.AddRule? || c.RemoveRule? then Draft else if c.MarkCompiled? then Compiled
                      else if c.MarkApplied? then Applied else Failed
  {
    if calls == [] {
    } else {
      StatusIsLastWord(p, calls[..|calls| - 1]);
    }
  }

  function TimeOf(c: Option<Call>, default: Option<int>): Option<int> {
    if c.None? || c.value.UpdateCounters? then default else Some(c.value.now)
  }

  lemma StepStamps(p: Policy, c: Call)
    ensures var q := Step(p, c);
      && q.updatedAt == (if Accepts(p, c) && Stamps(p, c) then c.now else p.updatedAt)
      && q.appliedAt == (if Accepts(p, c) && IsApply(p, c) then Some(c.now) else p.appliedAt)
      && q.compiledAt == (if Accepts(p, c) && IsCompile(p, c) then Some(c.now) else p.compiledAt)
  {
  }

  /** Each timestamp is the time of the last accepted call it is about. */
  lemma {:induction false} TimestampsAreLastCalls(p: Policy, calls: seq<Call>)
    ensures var q := Run(p, calls);
      && Some(q.updatedAt) == TimeOf(LastAccepted(p, calls, Stamps), Some(p.updatedAt))
      && q.appliedAt == TimeOf(LastAccepted(p, calls, IsApply), p.appliedAt)
      && q.compiledAt == TimeOf(LastAccepted(p, calls, IsCompile), p.compiledAt)
  {
    if calls == [] {
    } else {
      TimestampsAreLastCalls(p, calls[..|calls| - 1]);
      StepStamps(Run(p, calls[..|calls| - 1]), calls[|calls| - 1]);
    }
  }

  /** An update changes exactly the metadata it is given. */
  lemma UpdateWrites(p: Policy, c: Call)
    requires c.Update?
    ensures var q := Step(p, c);
      && q.name == (if c.name.Some? then c.name.value else p.name)
      && q.description == (if c.description.Some? then c.description.value else p.description)
      && q.labels == (if c.labels.Some? then c.labels.value else p.labels)
      && q == p.(name := q.name, description := q.description, labels := q.labels, updatedAt := q.updatedAt)
    ensures Step(p, c).updatedAt ==
      if (c.name.Some? && c.name.value != p.name) || (c.description.Some? && c.description.value != p.description)
         || c.labels.Some? then c.now else p.updatedAt
  {
  }

  /** A call is refused exactly when it names a rule that is not there or applies what is not
      compiled; it then changes nothing. */
  lemma RefusedIff(p: Policy, c: Call)
    ensures !Accepts(p, c) <==>
      || (c.RemoveRule? && forall r | r in p.rules :: r.ruleId != c.ruleId)
      || (c.UpdateCounters? && forall r | r in p.rules :: r.ruleId != c.ruleId)
      || (c.MarkApplied? && p.status != Compiled)
    ensures !Accepts(p, c) ==> Step(p, c) == p
  {
  }

  /** The call leaves the status alone: bookkeeping, or a call that raises. */
  predicate Neutral(p: Policy, c: Call) {
    c.UpdateCounters? || c.Update? || !Accepts(p, c)
  }

  /** Call k compiled the rules and nothing since has touched rules or status. */
  predicate StandsSince(p: Policy, calls: seq<Call>, k: int) {
    && 0 <= k < |calls| && calls[k].MarkCompiled?
    && (forall j | k < j < |calls| :: Neutral(Run(p, calls[..j]), calls[j]))
  }

  lemma StandsExtends(p: Policy, calls: seq<Call>, k: int)
    requires calls != []
    ensures var n := |calls| - 1;
      StandsSince(p, calls, k) <==>
        if k == n then calls[n].MarkCompiled?
        else StandsSince(p, calls[..n], k) && Neutral(Run(p, calls[..n]), calls[n])
  {
    var n := |calls| - 1;
    forall j | 0 <= j < n ensures calls[..j] == calls[..n][..j] {}
  }

  /** `mark_applied` succeeds exactly when a compilation stands. */
  lemma {:induction false} AppliesIffCompilationStands(p: Policy, calls: seq<Call>, now: int)
    requires Empty(p)
    ensures Accepts(Run(p, calls), MarkApplied(now)) <==> exists k :: StandsSince(p, calls, k)
  {
    if calls == [] {
    } else {
      var n := |calls| - 1;
      AppliesIffCompilationStands(p, calls[..n], now);
      forall k ensures StandsSince(p, calls, k) <==>
        if k == n then calls[n].MarkCompiled?
        else StandsSince(p, calls[..n], k) && Neutral(Run(p, calls[..n]), calls[n])
      {
        StandsExtends(p, calls, k);
      }
      StatusAfter(Run(p, calls[..n]), calls[n]);
      assert StandsSince(p, calls, n) <==> calls[n].MarkCompiled?;
    }
  }

  lemma StatusAfter(p: Policy, c: Call)
    ensures Step(p, c).status == Compiled <==> c.MarkCompiled? || (p.status == Compiled && Neutral(p, c))
  {}

  /** A failed policy cannot be applied again until it is compiled again, even though the
      failure kept the artefact. */
  lemma FailureNeedsRecompilation(p: Policy, calls: seq<Call>, now: int, later: int)
    requires Empty(p)
    ensures var q := Run(p, calls); var f := Step(q, MarkFailed(now));
      && f.ruleset == q.ruleset && f.rules == q.rules
      && Step(f, MarkApplied(later)) == f
      && forall text :: Step(Step(f, MarkCompiled(text, now)), MarkApplied(later)).status == Applied
  {}

  /** Metadata never touches the compilation: an update leaves the status and the artefact as
      they are, so a renamed compiled policy can still be applied. */
  lemma UpdateKeepsCompilation(p: Policy, c: Call, now: int)
    requires c.Update?
    ensures var q := Step(p, c);
      && q.status == p.status && q.ruleset == p.ruleset && q.rules == p.rules
      && (q.status == Draft <==> p.status == Draft)
      && (Accepts(q, MarkApplied(now)) <==> p.status == Compiled)
    ensures c.name.Some? ==> Step(p, c).name == c.name.value
  {}

  // ---- The objects ---------------------------------------------------------------------------

  /** The counters are the only fields any operation of a policy assigns. */
  class SecurityPolicyRule {
    const clause: Clause
    var packetCount: int
    var byteCount: int

    constructor (clause: Clause)
      ensures this.clause == clause && packetCount == 0 && byteCount == 0
    {
      this.clause := clause;
      packetCount, byteCount := 0, 0;
    }
  }

  predicate PriorityLeq(a: SecurityPolicyRule, b: SecurityPolicyRule) {
    a.clause.priority <= b.clause.priority
  }

  function Clauses(rules: seq<SecurityPolicyRule>): (cs: seq<Clause>)
    ensures |cs| == |rules| && forall i | 0 <= i < |rules| :: cs[i] == rules[i].clause
  {
    if rules == [] then [] else [rules[0].clause] + Clauses(rules[1..])
  }

  lemma ClausesAppend(a: seq<SecurityPolicyRule>, b: seq<SecurityPolicyRule>)
    ensures Clauses(a + b) == Clauses(a) + Clauses(b)
  {}

  lemma {:induction false} InsertClauses(rules: seq<SecurityPolicyRule>, r: SecurityPolicyRule)
    ensures Clauses(Insert(PriorityLeq, rules, r)) == Insert(ByPriority, Clauses(rules), r.clause)
  {
    if rules != [] && PriorityLeq(rules[0], r) { InsertClauses(rules[1..], r); }
  }

  lemma {:induction false} SortClauses(rules: seq<SecurityPolicyRule>)
    ensures Clauses(Sort(PriorityLeq, rules)) == Sort(ByPriority, Clauses(rules))
  {
    if rules == [] {
    } else {
      var n := |rules| - 1;
      SortClauses(rules[..n]);
      assert Clauses(rules[..n]) == Clauses(rules)[..n];
      InsertClauses(Sort(PriorityLeq, rules[..n]), rules[n]);
    }
  }

  function RuleNotNamed(ruleId: string): SecurityPolicyRule -> bool {
    (r: SecurityPolicyRule) => r.clause.ruleId != ruleId
  }

  lemma {:induction false} FilterClauses(rules: seq<SecurityPolicyRule>, ruleId: string)
    ensures Clauses(Filter(rules, RuleNotNamed(ruleId))) == Filter(Clauses(rules), NotNamed(ruleId))
  {
    if rules == [] {
    } else {
      FilterClauses(rules[1..], ruleId);
      assert Clauses(rules)[1..] == Clauses(rules[1..]);
    }
  }

  lemma NamesIff(rules: seq<SecurityPolicyRule>, ruleId: string)
    ensures Names(Clauses(rules), ruleId) <==> exists i :: 0 <= i < |rules| && rules[i].clause.ruleId == ruleId
    ensures Names(Clauses(rules), ruleId) <==> |Filter(rules, RuleNotNamed(ruleId))| != |rules|
  {
    var cs := Clauses(rules);
    FilterClauses(rules, ruleId);
    FilterIn(cs, NotNamed(ruleId));
    if i :| 0 <= i < |rules| && rules[i].clause.ruleId == ruleId {
      assert cs[i] in cs;
    }
  }

  /** The position of the first rule of this id. */
  predicate IsFirst(rules: seq<SecurityPolicyRule>, ruleId: string, i: int) {
    0 <= i < |rules| && rules[i].clause.ruleId == ruleId && NoneBefore(rules, ruleId, i)
  }

  predicate NoneBefore(rules: seq<SecurityPolicyRule>, ruleId: string, i: int) {
    i <= |rules| && forall j | 0 <= j < i :: rules[j].clause.ruleId != ruleId
  }

  lemma FirstIff(rules: seq<SecurityPolicyRule>, ruleId: string, i: int)
    ensures IsFirst(rules, ruleId, i) ==> Names(Clauses(rules), ruleId)
    ensures NoneBefore(rules, ruleId, |rules|) ==> !Names(Clauses(rules), ruleId)
  {
    NamesIff(rules, ruleId);
  }

  class SecurityPolicy {
    var name: string
    var description: string
    var labels: Dict
    var rules: seq<SecurityPolicyRule>
    var status: Status
    var compiledRuleset: Option<string>
    var compiledAt: Option<int>
    var appliedAt: Option<int>
    var updatedAt: int

    ghost function Value(): Policy
      reads this
    {
      Policy(name, description, labels, Clauses(rules), status, compiledRuleset, compiledAt, appliedAt, updatedAt)
    }

    constructor (name: string, now: int)
      ensures Value() == Policy(name, "", map[], [], Draft, None, None, None, now)
      ensures Empty(Value())
    {
      this.name, description, labels, rules, status := name, "", map[], [], Draft;
      compiledRuleset, compiledAt, appliedAt, updatedAt := None, None, None, now;
    }

    method AddRule(rule: SecurityPolicyRule, now: int)
      modifies this
      ensures Value() == Step(old(Value()), Call.AddRule(rule.clause, now))
      ensures multiset(rules) == multiset(old(rules)) + multiset{rule}
    {
      ghost var before := Value();
      var newRules := rules + [rule];
      var sorted := Sort(PriorityLeq, newRules);
      assert Clauses(sorted) == Sort(ByPriority, before.rules + [rule.clause])
          && multiset(sorted) == multiset(rules) + multiset{rule} by { SortedWith(rules, rule); }
      AddStep(before, rule.clause, now, Clauses(sorted));
      rules := sorted;
      status := Draft;
      compiledRuleset := None;
      updatedAt := now;
    }

    method RemoveRule(ruleId: string, now: int) returns (ok: bool)
      modifies this
      ensures ok == Accepts(old(Value()), Call.RemoveRule(ruleId, now))
      ensures Value() == Step(old(Value()), Call.RemoveRule(ruleId, now))
      ensures forall r :: r in rules <==> r in old(rules) && r.clause.ruleId != ruleId
    {
      var newRules := Filter(rules, RuleNotNamed(ruleId));
      NamesIff(rules, ruleId);
      FilterClauses(rules, ruleId);
      FilterIn(rules, RuleNotNamed(ruleId));
      if |newRules| == |rules| { return false; }
      rules := newRules;
      status := Draft;
      compiledRuleset := None;
      updatedAt := now;
      return true;
    }

    method MarkCompiled(ruleset: string, now: int)
      modifies this
      ensures Value() == Step(old(Value()), Call.MarkCompiled(ruleset, now)) && rules == old(rules)
    {
      compiledRuleset := Some(ruleset);
      compiledAt := Some(now);
      status := Compiled;
      updatedAt := now;
    }

    method MarkApplied(now: int) returns (ok: bool)
      modifies this
      ensures ok == Accepts(old(Value()), Call.MarkApplied(now))
      ensures Value() == Step(old(Value()), Call.MarkApplied(now)) && rules == old(rules)
    {
      if status != Compiled { return false; }
      appliedAt := Some(now);
      status := Applied;
      updatedAt := now;
      return true;
    }

    method MarkFailed(now: int)
      modifies this
      ensures Value() == Step(old(Value()), Call.MarkFailed(now)) && rules == old(rules)
    {
      status := Failed;
      updatedAt := now;
    }

    /** Writes the counters of the first rule of this id and of nothing else. */
    method UpdateCounters(ruleId: string, packetCount: int, byteCount: int) returns (ok: bool, ghost at: int)
      modifies set r | r in rules
      ensures ok == Accepts(Value(), Call.UpdateCounters(ruleId))
      ensures ok ==> IsFirst(rules, ruleId, at)
      ensures ok ==> rules[at].packetCount == packetCount && rules[at].byteCount == byteCount
      ensures forall r | r in rules && !(ok && r == rules[at]) ::
        r.packetCount == old(r.packetCount) && r.byteCount == old(r.byteCount)
    {
      for k := 0 to |rules|
        invariant NoneBefore(rules, ruleId, k)
        invariant forall r | r in rules :: r.packetCount == old(r.packetCount) && r.byteCount == old(r.byteCount)
      {
        var rule := rules[k];
        if rule.clause.ruleId == ruleId {
          rule.packetCount := packetCount;
          rule.byteCount := byteCount;
          FirstIff(rules, ruleId, k);
          return true, k;
        }
      }
      FirstIff(rules, ruleId, 0);
      return false, 0;
    }

    method Update(name: Option<string>, description: Option<string>, labels: Option<Dict>, now: int)
      modifies this
      ensures Value() == Step(old(Value()), Call.Update(name, description, labels, now)) && rules == old(rules)
    {
      var changed := false;
      if name.Some? && name.value != this.name {
        this.name := name.value;
        changed := true;
      }
      if description.Some? && description.value != this.description {
        this.description := description.value;
        changed := true;
      }
      if labels.Some? {
        this.labels := labels.value;
        changed := true;
      }
      if changed { updatedAt := now; }
    }
  }

  lemma AddStep(p: Policy, r: Clause, now: int, sorted: seq<Clause>)
    requires sorted == Sort(ByPriority, p.rules + [r])
    ensures Step(p, AddRule(r, now)) == p.(rules := sorted, status := Draft, ruleset := None, updatedAt := now)
  {
  }

  lemma SortedWith(rules: seq<SecurityPolicyRule>, rule: SecurityPolicyRule)
    ensures var sorted := Sort(PriorityLeq, rules + [rule]);
      && Clauses(sorted) == Sort(ByPriority, Clauses(rules) + [rule.clause])
      && multiset(sorted) == multiset(rules) + multiset{rule}
  {
    SortClauses(rules + [rule]);
    ClausesAppend(rules, [rule]);
    SortIsPermutation(rules + [rule]);
  }

  lemma {:induction false} SortIsPermutation(rules: seq<SecurityPolicyRule>)
    ensures multiset(Sort(PriorityLeq, rules)) == multiset(rules)
  {
    if rules == [] {
    } else {
      var n := |rules| - 1;
      assert rules == rules[..n] + [rules[n]];
      SortIsPermutation(rules[..n]);
      InsertAdds(PriorityLeq, Sort(PriorityLeq, rules[..n]), rules[n]);
    }
  }
}
