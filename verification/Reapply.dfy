/** Applying a plan twice: exactly when the second application ends in the same stores, and
    exactly when it comes back ok. A bridge is followed cell by cell through the plan. */
module Reapply {
  import opened Common
  import opened EdgeServices
  import opened OvsStore
  import opened PlanMachine
  import Ordering
  import Text
  import O = OvsState

  // ---- What a step does to one cell ------------------------------------------------------

  predicate Ensures(step: Step, b: string) { step.EnsureBridgeStep? && step.name == b }

  predicate Deletes(step: Step, b: string) { step.DeleteBridgeStep? && step.name == b }

  /** The bridge a port step needs. */
  function PortBridge(step: Step): Option<string> {
    if step.EnsurePortStep? || step.DeletePortStep? || step.EnsureVxlanPortStep? then Some(step.bridge) else None
  }

  /** What a step would store at a port: a port, its absence, or nothing. */
  function Writes(step: Step, b: string, p: string): Option<Option<Port>> {
    if PortBridge(step) != Some(b) || step.name != p then None
    else if step.EnsurePortStep? then Some(Some(PlainPort(step)))
    else if step.EnsureVxlanPortStep? then Some(Some(VxlanPort(step)))
    else Some(None)
  }

  /** A bridge's presence and one of its ports. */
  datatype Cell = Cell(present: bool, port: Option<Port>)

  function CellOf(s: Store, b: string, p: string): Cell {
    Cell(b in s.bridges, PortCell(s.bridges, b, p))
  }

  function CellAfter(c: Cell, step: Step, b: string, p: string): Cell {
    if Ensures(step, b) then c.(present := true)
    else if Deletes(step, b) then Cell(false, None)
    else if c.present && Writes(step, b, p).Some? then c.(port := Writes(step, b, p).value)
    else c
  }

  function CellRun(c: Cell, steps: seq<Step>, b: string, p: string): Cell {
    if steps == [] then c
    else CellAfter(CellRun(c, steps[..|steps| - 1], b, p), steps[|steps| - 1], b, p)
  }

  function AttributesAfter(a: Option<(string, Dict)>, step: Step, b: string): Option<(string, Dict)> {
    if Ensures(step, b) then Some((step.datapathType, step.externalIds)) else if Deletes(step, b) then None else a
  }

  /** What the bridges hold after a step, cell by cell. */
  ghost predicate ActsOn(bs: Bridges, after: Bridges, step: Step, b: string, p: string) {
    && Attributes(after, b) == AttributesAfter(Attributes(bs, b), step, b)
    && Cell(b in after, PortCell(after, b, p)) == CellAfter(Cell(b in bs, PortCell(bs, b, p)), step, b, p)
  }

  lemma BridgeStepActs(s: Store, step: Step, b: string, p: string)
    requires step.EnsureBridgeStep? || step.DeleteBridgeStep?
    ensures ActsOn(s.bridges, After(s, step).bridges, step, b, p)
  {
    match step
    case EnsureBridgeStep(name, dp, ids) => EnsureBridgeCells(s.bridges, name, dp, ids);
    case DeleteBridgeStep(name) => DeleteBridgeCells(s.bridges, name);
  }

  lemma EnsurePortActs(bs: Bridges, step: Step, port: Port, b: string, p: string)
    requires Wf(bs) && WfPort(port)
    requires PortBridge(step).Some? && step.name == port.name
    requires Writes(step, step.bridge, step.name) == Some(Some(port))
    ensures ActsOn(bs, EnsuredPorts(bs, step.bridge, port), step, b, p)
  {
    EnsurePortCells(bs, step.bridge, port);
    SamePresence(bs, EnsuredPorts(bs, step.bridge, port), b);
  }

  lemma DeletePortActs(bs: Bridges, step: Step, b: string, p: string)
    requires step.DeletePortStep?
    ensures ActsOn(bs, DeletedPorts(bs, step.bridge, step.name), step, b, p)
  {
    DeletePortCells(bs, step.bridge, step.name);
    SamePresence(bs, DeletedPorts(bs, step.bridge, step.name), b);
  }

  lemma SamePresence(x: Bridges, y: Bridges, b: string)
    requires Attributes(x, b) == Attributes(y, b)
    ensures b in x <==> b in y
  {
  }

  /** A step acts on each cell by itself. */
  lemma CellStep(s: Store, step: Step, b: string, p: string)
    requires WfStore(s)
    ensures CellOf(After(s, step), b, p) == CellAfter(CellOf(s, b, p), step, b, p)
    ensures Attributes(After(s, step).bridges, b) == AttributesAfter(Attributes(s.bridges, b), step, b)
  {
    assert ActsOn(s.bridges, After(s, step).bridges, step, b, p) by {
      match step
      case EnsureBridgeStep(_, _, _) => BridgeStepActs(s, step, b, p);
      case DeleteBridgeStep(_) => BridgeStepActs(s, step, b, p);
      case EnsurePortStep(_, _, _, _, _, _, _) => EnsurePortActs(s.bridges, step, PlainPort(step), b, p);
      case DeletePortStep(_, _) => DeletePortActs(s.bridges, step, b, p);
      case EnsureVxlanPortStep(_, _, _, _, _, _, _, _) => EnsurePortActs(s.bridges, step, VxlanPort(step), b, p);
      case _ =>
    }
  }

  lemma {:induction false} CellExec(s: Store, steps: seq<Step>, b: string, p: string)
    requires WfStore(s)
    ensures CellOf(Exec(s, steps), b, p) == CellRun(CellOf(s, b, p), steps, b, p)
  {
    if steps == [] {
    } else {
      var n := |steps| - 1;
      CellExec(s, steps[..n], b, p);
      ExecKeepsWf(s, steps[..n]);
      CellStep(Exec(s, steps[..n]), steps[n], b, p);
    }
  }

  // ---- Everything but the ports settles at once --------------------------------------------

  /** Each cell of t is already as in s, or still as in f. */
  ghost predicate BetweenMaps<V(!new)>(s: map<string, V>, t: map<string, V>, f: map<string, V>) {
    forall k :: Get(t, k) == Get(s, k) || Get(t, k) == Get(f, k)
  }

  ghost predicate RestBetween(s: Store, t: Store, f: Store) {
    && (forall b :: Attributes(t.bridges, b) == Attributes(s.bridges, b)
                    || Attributes(t.bridges, b) == Attributes(f.bridges, b))
    && BetweenMaps(s.dhcp, t.dhcp, f.dhcp)
    && BetweenMaps(s.dns, t.dns, f.dns)
    && BetweenMaps(s.natRules, t.natRules, f.natRules)
    && BetweenMaps(s.policies, t.policies, f.policies)
  }

  lemma PutBetween<V(!new)>(s: map<string, V>, t: map<string, V>, f: map<string, V>, k: string, v: V)
    requires BetweenMaps(s, t, f)
    ensures BetweenMaps(Put(s, k, v).1, Put(t, k, v).1, f)
  {
  }

  lemma PopBetween<V(!new)>(s: map<string, V>, t: map<string, V>, f: map<string, V>, k: string)
    requires BetweenMaps(s, t, f)
    ensures BetweenMaps(Pop(s, k).1, Pop(t, k).1, f)
  {
  }

  lemma OvsStepLocal(s: Store, step: Step)
    requires IsOvsStep(step)
    ensures After(s, step) == s.(bridges := After(s, step).bridges)
  {
  }

  /** Whether or not the step succeeds. */
  lemma RestStepBetween(s: Store, t: Store, f: Store, step: Step)
    requires WfStore(s) && WfStore(t) && RestBetween(s, t, f)
    ensures RestBetween(After(s, step), After(t, step), f)
  {
    if IsOvsStep(step) {
      OvsStepLocal(s, step);
      OvsStepLocal(t, step);
      forall b
        ensures Attributes(After(t, step).bridges, b) == Attributes(After(s, step).bridges, b)
                || Attributes(After(t, step).bridges, b) == Attributes(f.bridges, b)
      {
        CellStep(s, step, b, "");
        CellStep(t, step, b, "");
      }
    } else {
      match step
      case EnsureDhcpScopeStep(spec) => PutBetween(s.dhcp, t.dhcp, f.dhcp, spec.scopeId, spec);
      case DeleteDhcpScopeStep(id) => PopBetween(s.dhcp, t.dhcp, f.dhcp, id);
      case EnsureDnsZoneStep(spec) => PutBetween(s.dns, t.dns, f.dns, spec.zone, spec);
      case DeleteDnsZoneStep(zone) => PopBetween(s.dns, t.dns, f.dns, zone);
      case EnsureNatRuleStep(spec) => PutBetween(s.natRules, t.natRules, f.natRules, spec.ruleId, spec);
      case DeleteNatRuleStep(id) => PopBetween(s.natRules, t.natRules, f.natRules, id);
      case EnsureFirewallPolicyStep(spec) => PutBetween(s.policies, t.policies, f.policies, spec.policyId, spec);
      case DeleteFirewallPolicyStep(id) => PopBetween(s.policies, t.policies, f.policies, id);
    }
  }

  lemma {:induction false} RestRunBetween(s: Store, f: Store, steps: seq<Step>)
    requires WfStore(s) && WfStore(f)
    ensures RestBetween(Exec(s, steps), Exec(f, steps), f)
  {
    if steps == [] {
    } else {
      var n := |steps| - 1;
      RestRunBetween(s, f, steps[..n]);
      ExecKeepsWf(s, steps[..n]);
      ExecKeepsWf(f, steps[..n]);
      RestStepBetween(Exec(s, steps[..n]), Exec(f, steps[..n]), f, steps[n]);
    }
  }

  // ---- When a port does not settle -----------------------------------------------------------

  predicate Deleted(steps: seq<Step>, b: string) { exists step :: step in steps && Deletes(step, b) }

  predicate Ensured(steps: seq<Step>, b: string) { exists step :: step in steps && Ensures(step, b) }

  /** The last write to the port, whether or not the bridge is there. */
  function LastWrite(steps: seq<Step>, b: string, p: string): Option<Option<Port>> {
    if steps == [] then None
    else
      var n := |steps| - 1;
      if Writes(steps[n], b, p).Some? then Writes(steps[n], b, p) else LastWrite(steps[..n], b, p)
  }

  /** The last write that follows an `ensure_bridge`. */
  function LateWrite(steps: seq<Step>, b: string, p: string): Option<Option<Port>> {
    if steps == [] then None
    else
      var n := |steps| - 1;
      if Writes(steps[n], b, p).Some? && Ensured(steps[..n], b) then Writes(steps[n], b, p)
      else LateWrite(steps[..n], b, p)
  }

  lemma Snoc(steps: seq<Step>, b: string)
    requires steps != []
    ensures var n := |steps| - 1;
      && (Deleted(steps, b) <==> Deleted(steps[..n], b) || Deletes(steps[n], b))
      && (Ensured(steps, b) <==> Ensured(steps[..n], b) || Ensures(steps[n], b))
  {
    assert steps == steps[..|steps| - 1] + [steps[|steps| - 1]];
  }

  /** A deleted bridge forgets what was there before. */
  lemma {:induction false} DeleteForgets(c: Cell, d: Cell, steps: seq<Step>, b: string, p: string)
    requires Deleted(steps, b)
    ensures CellRun(c, steps, b, p) == CellRun(d, steps, b, p)
  {
    var n := |steps| - 1;
    Snoc(steps, b);
    if !Deletes(steps[n], b) { DeleteForgets(c, d, steps[..n], b, p); }
  }

  /** On a bridge that is there throughout the last write stays. */
  lemma {:induction false} PresentRun(c: Cell, steps: seq<Step>, b: string, p: string)
    requires c.present && !Deleted(steps, b)
    ensures CellRun(c, steps, b, p) == Cell(true, OrElse(LastWrite(steps, b, p), c.port))
  {
    if steps == [] {
    } else {
      Snoc(steps, b);
      PresentRun(c, steps[..|steps| - 1], b, p);
    }
  }

  /** On a bridge that is missing at first only the late writes count. */
  lemma {:induction false} AbsentRun(steps: seq<Step>, b: string, p: string)
    requires !Deleted(steps, b)
    ensures CellRun(Cell(false, None), steps, b, p) == Cell(Ensured(steps, b), OrElse(LateWrite(steps, b, p), None))
    ensures LateWrite(steps, b, p).Some? ==> Ensured(steps, b) && LastWrite(steps, b, p) == LateWrite(steps, b, p)
  {
    if steps == [] {
    } else {
      Snoc(steps, b);
      AbsentRun(steps[..|steps| - 1], b, p);
    }
  }

  /** Position k holds the last write of the port; it ensures it, before the bridge ever is. */
  predicate TooEarly(steps: seq<Step>, b: string, p: string, k: int) {
    && 0 <= k < |steps| && Writes(steps[k], b, p).Some? && Writes(steps[k], b, p).value.Some?
    && (forall i | 0 <= i < |steps| && Ensures(steps[i], b) :: k < i)
    && (forall i | k < i < |steps| :: Writes(steps[i], b, p).None?)
  }

  /** The bridge is missing from the store, the plan ensures it and never deletes it, and the
      port's last step ensures the port before every step that ensures the bridge. */
  ghost predicate Orphan(s: Store, steps: seq<Step>, b: string, p: string) {
    b !in s.bridges && Ensured(steps, b) && !Deleted(steps, b) && exists k :: TooEarly(steps, b, p, k)
  }

  lemma {:induction false} LastWriteAt(steps: seq<Step>, b: string, p: string) returns (k: int)
    ensures LastWrite(steps, b, p).None? <==> k < 0
    ensures k >= 0 ==> k < |steps| && LastWrite(steps, b, p) == Writes(steps[k], b, p)
    ensures forall i | 0 <= i < |steps| && k < i :: Writes(steps[i], b, p).None?
  {
    if steps == [] {
      k := -1;
    } else {
      var n := |steps| - 1;
      if Writes(steps[n], b, p).Some? {
        k := n;
      } else {
        k := LastWriteAt(steps[..n], b, p);
        assert forall i | 0 <= i < n :: steps[..n][i] == steps[i];
      }
    }
  }

  lemma {:induction false} NoLateWriteIff(steps: seq<Step>, b: string, p: string)
    ensures LateWrite(steps, b, p).None? <==>
      forall i, j | 0 <= i < j < |steps| && Ensures(steps[i], b) :: Writes(steps[j], b, p).None?
  {
    if steps == [] {
    } else {
      var n := |steps| - 1;
      NoLateWriteIff(steps[..n], b, p);
      assert forall i | 0 <= i < n :: steps[..n][i] == steps[i];
      if Ensured(steps[..n], b) { assert exists i :: 0 <= i < n && Ensures(steps[..n][i], b); }
    }
  }

  lemma TooEarlyIff(steps: seq<Step>, b: string, p: string)
    ensures (exists k :: TooEarly(steps, b, p, k)) <==>
      LateWrite(steps, b, p).None? && LastWrite(steps, b, p).Some? && LastWrite(steps, b, p).value.Some?
  {
    var last := LastWriteAt(steps, b, p);
    NoLateWriteIff(steps, b, p);
    if LateWrite(steps, b, p).None? && LastWrite(steps, b, p).Some? && LastWrite(steps, b, p).value.Some? {
      forall i | 0 <= i < |steps| && Ensures(steps[i], b) ensures last < i {
        assert Writes(steps[i], b, p).None?;
      }
      assert TooEarly(steps, b, p, last);
    }
    if k :| TooEarly(steps, b, p, k) {
      assert Writes(steps[k], b, p).Some?;
      assert k == last;
    }
  }

  /** One port settles after the first application exactly when it is no orphan. */
  lemma CellStableIff(s: Store, steps: seq<Step>, b: string, p: string)
    requires WfStore(s)
    ensures CellOf(Exec(Exec(s, steps), steps), b, p) == CellOf(Exec(s, steps), b, p) <==> !Orphan(s, steps, b, p)
  {
    var c := CellOf(s, b, p);
    var f := CellRun(c, steps, b, p);
    CellExec(s, steps, b, p);
    ExecKeepsWf(s, steps);
    CellExec(Exec(s, steps), steps, b, p);
    if Deleted(steps, b) {
      DeleteForgets(c, f, steps, b, p);
    } else if c.present {
      PresentRun(c, steps, b, p);
      PresentRun(f, steps, b, p);
    } else {
      AbsentRun(steps, b, p);
      TooEarlyIff(steps, b, p);
      if Ensured(steps, b) { PresentRun(f, steps, b, p); }
    }
  }

  /** Applying a plan again changes nothing if and only if it leaves no orphan: a condition on
      the starting store and the plan alone, whether or not the plan came back ok. */
  lemma StableIff(s: Store, steps: seq<Step>)
    requires WfStore(s)
    ensures Exec(Exec(s, steps), steps) == Exec(s, steps) <==> forall b, p :: !Orphan(s, steps, b, p)
  {
    var f := Exec(s, steps);
    var g := Exec(f, steps);
    forall b, p ensures CellOf(g, b, p) == CellOf(f, b, p) <==> !Orphan(s, steps, b, p) {
      CellStableIff(s, steps, b, p);
    }
    if forall b, p :: !Orphan(s, steps, b, p) {
      forall b, p ensures PortCell(g.bridges, b, p) == PortCell(f.bridges, b, p) {
        assert CellOf(g, b, p) == CellOf(f, b, p);
      }
      SettlesWithPorts(s, steps);
    } else {
      var b, p :| Orphan(s, steps, b, p);
      assert CellOf(g, b, p) != CellOf(f, b, p);
    }
  }

  lemma SettlesWithPorts(s: Store, steps: seq<Step>)
    requires WfStore(s)
    requires forall b, p ::
      PortCell(Exec(Exec(s, steps), steps).bridges, b, p) == PortCell(Exec(s, steps).bridges, b, p)
    ensures Exec(Exec(s, steps), steps) == Exec(s, steps)
  {
    var f := Exec(s, steps);
    var g := Exec(f, steps);
    ExecKeepsWf(s, steps);
    ExecKeepsWf(f, steps);
    RestRunBetween(s, f, steps);
    assert RestBetween(f, g, f);
    CellsDetermine(g.bridges, f.bridges);
    GetDetermines(g.dhcp, f.dhcp);
    GetDetermines(g.dns, f.dns);
    GetDetermines(g.natRules, f.natRules);
    GetDetermines(g.policies, f.policies);
  }

  // ---- When a plan comes back ok ---------------------------------------------------------------

  /** Whether the bridge is there after the steps. */
  function Stands(before: bool, steps: seq<Step>, b: string): bool {
    if steps == [] then before
    else
      var last := steps[|steps| - 1];
      if Ensures(last, b) then true else if Deletes(last, b) then false
      else Stands(before, steps[..|steps| - 1], b)
  }

  lemma {:induction false} StandsExec(s: Store, steps: seq<Step>, b: string)
    requires WfStore(s)
    ensures b in Exec(s, steps).bridges <==> Stands(b in s.bridges, steps, b)
  {
    if steps == [] {
    } else {
      var n := |steps| - 1;
      StandsExec(s, steps[..n], b);
      ExecKeepsWf(s, steps[..n]);
      CellStep(Exec(s, steps[..n]), steps[n], b, "");
    }
  }

  /** Step i finds the bridge it needs. */
  predicate Finds(s: Store, steps: seq<Step>, i: nat)
    requires i < |steps|
  {
    match PortBridge(steps[i])
    case None => true
    case Some(b) => Stands(b in s.bridges, steps[..i], b)
  }

  lemma AppliedIff(s: Store, step: Step)
    ensures ApplyStep(s, step).Applied? <==> PortBridge(step).None? || PortBridge(step).value in s.bridges
  {
  }

  lemma OkSnoc(s: Store, steps: seq<Step>)
    requires WfStore(s) && steps != []
    ensures AllOk(Results(s, steps)) <==> AllOk(Results(s, steps[..|steps| - 1])) && Finds(s, steps, |steps| - 1)
  {
    var n := |steps| - 1;
    var before := Exec(s, steps[..n]);
    AllOkAppend(Results(s, steps[..n]), ResultOf(steps[n], ApplyStep(before, steps[n])));
    AppliedIff(before, steps[n]);
    if PortBridge(steps[n]).Some? { StandsExec(s, steps[..n], PortBridge(steps[n]).value); }
  }

  /** A run is ok if and only if every port step finds its bridge. */
  lemma {:induction false} OkIff(s: Store, steps: seq<Step>)
    requires WfStore(s)
    ensures AllOk(Results(s, steps)) <==> forall i | 0 <= i < |steps| :: Finds(s, steps, i)
  {
    if steps == [] {
    } else {
      var n := |steps| - 1;
      OkIff(s, steps[..n]);
      OkSnoc(s, steps);
      forall i | 0 <= i < n ensures Finds(s, steps, i) <==> Finds(s, steps[..n], i) {
        assert steps[..n][..i] == steps[..i];
      }
    }
  }

  /** A plan that came back ok has no orphans, so applying it again changes nothing, whatever
      its steps: even if some of them fail or report changes on the way. */
  lemma ReapplyIsStable(s: Store, plan: Plan)
    requires WfStore(s) && Run(s, plan).0.ok
    ensures Run(Run(s, plan).1, plan).1 == Run(s, plan).1
  {
    OkIff(s, plan.steps);
    forall b, p ensures !Orphan(s, plan.steps, b, p) {
      if Orphan(s, plan.steps, b, p) {
        var k :| TooEarly(plan.steps, b, p, k);
        assert Finds(s, plan.steps, k);
        NeverEnsured(plan.steps[..k], b);
        assert false;
      }
    }
    StableIff(s, plan.steps);
  }

  lemma {:induction false} NeverEnsured(steps: seq<Step>, b: string)
    requires forall i | 0 <= i < |steps| :: !Ensures(steps[i], b)
    ensures !Stands(false, steps, b)
  {
    if steps == [] {
    } else {
      NeverEnsured(steps[..|steps| - 1], b);
    }
  }

  // ---- What the result of a run says -------------------------------------------------------------

  lemma ExecAt(s: Store, steps: seq<Step>, i: nat)
    requires i < |steps|
    ensures Exec(s, steps[..i + 1]) == After(Exec(s, steps[..i]), steps[i])
  {
    assert steps[..i + 1][..i] == steps[..i];
  }

  lemma {:induction false} ResultAt(s: Store, steps: seq<Step>, i: nat)
    requires i < |steps|
    ensures Results(s, steps)[i] == ResultOf(steps[i], ApplyStep(Exec(s, steps[..i]), steps[i]))
  {
    var n := |steps| - 1;
    if i < n {
      ResultAt(s, steps[..n], i);
      assert steps[..n][..i] == steps[..i] && steps[..n][i] == steps[i];
      assert Results(s, steps)[i] == Results(s, steps[..n])[i];
    }
  }

  /** Each entry of a result tells the truth about its step: it names it, it is ok exactly when
      the step found its bridge, it reports a change exactly when the stores before and after
      the step differ, and its message says which of the three happened. */
  lemma EntryIsTrue(s: Store, steps: seq<Step>, i: nat)
    requires WfStore(s) && i < |steps|
    ensures var e := Results(s, steps)[i];
      && e.step == steps[i]
      && (e.ok <==> Finds(s, steps, i))
      && (e.changed <==> Exec(s, steps[..i + 1]) != Exec(s, steps[..i]))
      && (e.message == AppliedMessage <==> e.changed)
      && (e.message == NoopMessage <==> e.ok && !e.changed)
      && (!e.ok ==> PortBridge(steps[i]).Some? && e.message == BridgeMissing(PortBridge(steps[i]).value))
  {
    var before := Exec(s, steps[..i]);
    ResultAt(s, steps, i);
    ExecAt(s, steps, i);
    ExecKeepsWf(s, steps[..i]);
    ChangedIsExact(before, steps[i]);
    AppliedIff(before, steps[i]);
    if PortBridge(steps[i]).Some? { StandsExec(s, steps[..i], PortBridge(steps[i]).value); }
    FailureNames(before, steps[i]);
  }

  lemma FailureNames(s: Store, step: Step)
    ensures ApplyStep(s, step).Failed? ==> PortBridge(step) == Some(ApplyStep(s, step).missing)
  {
  }

  /** The answer to a plan: its id, one entry a step, and ok if and only if every entry is. */
  lemma AnswerIsTrue(s: Store, plan: Plan)
    requires WfStore(s)
    ensures var r := Run(s, plan).0;
      && r.planId == plan.planId && |r.steps| == |plan.steps|
      && (r.ok <==> forall i | 0 <= i < |plan.steps| :: Finds(s, plan.steps, i))
  {
    OkIff(s, plan.steps);
  }

  // ---- What each step stores ---------------------------------------------------------------------

  /** An ensured port holds one interface of its own name, with the type and the options asked
      for, its trunks in order, and the rest as asked. */
  lemma PlainPortHolds(step: Step)
    requires step.EnsurePortStep?
    ensures Writes(step, step.bridge, step.name).Some? && Writes(step, step.bridge, step.name).value.Some?
    ensures var p := Writes(step, step.bridge, step.name).value.value;
      && p.name == step.name && p.tag == step.tag && p.externalIds == step.externalIds
      && multiset(p.trunks) == multiset(step.trunks)
      && (forall i, j | 0 <= i < j < |p.trunks| :: p.trunks[i] <= p.trunks[j])
      && p.interfaces == map[step.name := Iface(step.name, step.ifaceType, step.options)]
  {
    Ordering.SortSorts(O.IntLeq, step.trunks);
  }

  /** An ensured tunnel is a port of one vxlan interface, untagged and without trunks, whose
      options name the network, the two ends, the port and the MTU, and nothing else. */
  lemma VxlanPortHolds(step: Step)
    requires step.EnsureVxlanPortStep?
    ensures Writes(step, step.bridge, step.name).Some? && Writes(step, step.bridge, step.name).value.Some?
    ensures var p := Writes(step, step.bridge, step.name).value.value;
      && p.name == step.name && p.tag == None && p.trunks == [] && p.externalIds == step.externalIds
      && p.interfaces.Keys == {step.name}
      && var i := p.interfaces[step.name];
      && i.name == step.name && i.ifaceType == "vxlan"
      && Get(i.options, "key") == Some(Text.Str(step.vni))
      && Get(i.options, "remote_ip") == Some(step.remoteIp)
      && Get(i.options, "dst_port") == Some(Text.Str(step.dstPort))
      && Get(i.options, "local_ip") == step.localIp
      && Get(i.options, "mtu_request") == (if step.mtu.Some? then Some(Text.Str(step.mtu.value)) else None)
      && i.options.Keys <= {"key", "remote_ip", "dst_port", "local_ip", "mtu_request"}
  {
    OptionsSay(step.vni, step.remoteIp, step.localIp, step.dstPort, step.mtu);
  }

  lemma OptionsSay(vni: int, remoteIp: string, localIp: Option<string>, dstPort: int, mtu: Option<int>)
    ensures var o := VxlanOptions(vni, remoteIp, localIp, dstPort, mtu);
      && Get(o, "key") == Some(Text.Str(vni))
      && Get(o, "remote_ip") == Some(remoteIp)
      && Get(o, "dst_port") == Some(Text.Str(dstPort))
      && Get(o, "local_ip") == localIp
      && Get(o, "mtu_request") == (if mtu.Some? then Some(Text.Str(mtu.value)) else None)
      && o.Keys <= {"key", "remote_ip", "dst_port", "local_ip", "mtu_request"}
  {
    assert "key" != "local_ip" && "key" != "mtu_request" && "remote_ip" != "local_ip" && "remote_ip" != "mtu_request";
    assert |"dst_port"| == 8 && |"local_ip"| == 8 && "dst_port"[0] != "local_ip"[0];
    assert |"remote_ip"| == 9 && |"mtu_request"| == 11 && |"key"| == 3;
  }

  /** A step on the edge services writes one entry of one store and touches nothing else. */
  lemma EdgeStepStores(s: Store, step: Step)
    requires !IsOvsStep(step)
    ensures var t := After(s, step);
      && t.bridges == s.bridges
      && Written(s.dhcp, t.dhcp, if step.EnsureDhcpScopeStep? then Some((step.scope.scopeId, Some(step.scope)))
                                else if step.DeleteDhcpScopeStep? then Some((step.scopeId, None)) else None)
      && Written(s.dns, t.dns, if step.EnsureDnsZoneStep? then Some((step.zoneSpec.zone, Some(step.zoneSpec)))
                              else if step.DeleteDnsZoneStep? then Some((step.zone, None)) else None)
      && Written(s.natRules, t.natRules, if step.EnsureNatRuleStep? then Some((step.rule.ruleId, Some(step.rule)))
                                        else if step.DeleteNatRuleStep? then Some((step.ruleId, None)) else None)
      && Written(s.policies, t.policies,
                 if step.EnsureFirewallPolicyStep? then Some((step.policy.policyId, Some(step.policy)))
                 else if step.DeleteFirewallPolicyStep? then Some((step.policyId, None)) else None)
  {
  }

  /** At most the given entry differs, and it holds the given value, or is gone. */
  ghost predicate Written<V(!new)>(m: map<string, V>, n: map<string, V>, entry: Option<(string, Option<V>)>) {
    forall k :: Get(n, k) == if entry.Some? && entry.value.0 == k then entry.value.1 else Get(m, k)
  }

  // ---- When the second application comes back ok ------------------------------------------------

  predicate Untouched(steps: seq<Step>, b: string) {
    forall i | 0 <= i < |steps| :: !Ensures(steps[i], b) && !Deletes(steps[i], b)
  }

  /** A port step at i stands before every step on its bridge, and the last of those, at j,
      deletes the bridge. */
  predicate Doomed(steps: seq<Step>, b: string, i: int, j: int) {
    && 0 <= i < |steps| && PortBridge(steps[i]) == Some(b) && Untouched(steps[..i], b)
    && 0 <= j < |steps| && Deletes(steps[j], b) && Untouched(steps[j + 1..], b)
  }

  lemma {:induction false} StandsUntouched(before: bool, steps: seq<Step>, b: string)
    requires Untouched(steps, b)
    ensures Stands(before, steps, b) == before
  {
    if steps == [] {
    } else {
      StandsUntouched(before, steps[..|steps| - 1], b);
    }
  }

  lemma {:induction false} StandsForgets(x: bool, y: bool, steps: seq<Step>, b: string)
    requires !Untouched(steps, b)
    ensures Stands(x, steps, b) == Stands(y, steps, b)
  {
    var n := |steps| - 1;
    if !Ensures(steps[n], b) && !Deletes(steps[n], b) {
      assert forall i | 0 <= i < n :: steps[..n][i] == steps[i];
      StandsForgets(x, y, steps[..n], b);
    }
  }

  lemma {:induction false} LostAt(steps: seq<Step>, b: string) returns (j: int)
    ensures 0 <= j < |steps| && Deletes(steps[j], b) && Untouched(steps[j + 1..], b) <==> !Stands(true, steps, b)
  {
    if steps == [] {
      j := 0;
    } else {
      var n := |steps| - 1;
      if Ensures(steps[n], b) || Deletes(steps[n], b) {
        j := n;
      } else {
        j := LostAt(steps[..n], b);
        if 0 <= j < n { assert steps[j + 1..] == steps[..n][j + 1..] + [steps[n]]; }
      }
    }
  }

  lemma {:induction false} LostBy(steps: seq<Step>, b: string, j: int)
    requires 0 <= j < |steps| && Deletes(steps[j], b) && Untouched(steps[j + 1..], b)
    ensures !Stands(true, steps, b)
  {
    var n := |steps| - 1;
    if j < n {
      assert steps[j + 1..][n - j - 1] == steps[n];
      assert steps[j + 1..] == steps[..n][j + 1..] + [steps[n]];
      LostBy(steps[..n], b, j);
    }
  }

  /** An ok plan comes back ok the second time too, if and only if no port step stands before
      every step on a bridge that the plan finally deletes. */
  lemma SecondRunOkIff(s: Store, plan: Plan)
    requires WfStore(s) && Run(s, plan).0.ok
    ensures Run(Run(s, plan).1, plan).0.ok <==> forall b, i, j :: !Doomed(plan.steps, b, i, j)
  {
    var steps := plan.steps;
    var f := Exec(s, steps);
    OkIff(s, steps);
    ExecKeepsWf(s, steps);
    OkIff(f, steps);
    if AllOk(Results(f, steps)) {
      forall b, i, j ensures !Doomed(steps, b, i, j) {
        if Doomed(steps, b, i, j) {
          LostBy(steps, b, j);
          FirstUse(s, steps, b, i);
          assert false;
        }
      }
    }
    if forall b, i, j :: !Doomed(steps, b, i, j) {
      forall i | 0 <= i < |steps| ensures Finds(f, steps, i) {
        if PortBridge(steps[i]).Some? { FoundAgain(s, steps, PortBridge(steps[i]).value, i); }
      }
    }
  }

  /** A port step before every step on its bridge: the bridge was there at first, and is found
      the second time exactly when the plan leaves it standing. */
  lemma FirstUse(s: Store, steps: seq<Step>, b: string, i: nat)
    requires WfStore(s) && i < |steps| && PortBridge(steps[i]) == Some(b) && Untouched(steps[..i], b)
    requires Finds(s, steps, i)
    ensures Finds(Exec(s, steps), steps, i) <==> Stands(true, steps, b)
  {
    StandsUntouched(b in s.bridges, steps[..i], b);
    StandsUntouched(b in Exec(s, steps).bridges, steps[..i], b);
    StandsExec(s, steps, b);
  }

  lemma FoundAgain(s: Store, steps: seq<Step>, b: string, i: nat)
    requires WfStore(s) && i < |steps| && PortBridge(steps[i]) == Some(b) && Finds(s, steps, i)
    requires forall j :: !Doomed(steps, b, i, j)
    ensures Finds(Exec(s, steps), steps, i)
  {
    if Untouched(steps[..i], b) {
      FirstUse(s, steps, b, i);
      var j := LostAt(steps, b);
      assert !Doomed(steps, b, i, j);
    } else {
      StandsForgets(b in s.bridges, b in Exec(s, steps).bridges, steps[..i], b);
    }
  }

  // ---- Plans that show it ----------------------------------------------------------------------

  lemma TwoSteps(s: Store, a: Step, b: Step)
    ensures Exec(s, [a, b]) == After(After(s, a), b)
    ensures Results(s, [a, b]) == [ResultOf(a, ApplyStep(s, a)), ResultOf(b, ApplyStep(After(s, a), b))]
  {
    assert [a, b][..1] == [a] && [a][..0] == [];
    assert Exec(s, [a]) == After(Exec(s, []), a);
    assert Results(s, [a]) == Results(s, []) + [ResultOf(a, ApplyStep(s, a))];
  }

  /** A plan that names a port before its bridge fails, creates the bridge, and then does more
      when it is applied again. */
  lemma FailedPlanNeedNotBeStable(s: Store, port: Step, bridge: Step)
    requires port.EnsurePortStep? && bridge.EnsureBridgeStep? && port.bridge == bridge.name && bridge.name !in s.bridges
    ensures var plan := Plan("p", [port, bridge]);
            !Run(s, plan).0.ok && Run(Run(s, plan).1, plan).1 != Run(s, plan).1
  {
    TwoSteps(s, port, bridge);
    var f := Exec(s, [port, bridge]);
    assert f.bridges[bridge.name].ports == map[];
    TwoSteps(f, port, bridge);
    assert port.name in Exec(f, [port, bridge]).bridges[bridge.name].ports;
    assert !Results(s, [port, bridge])[0].ok;
  }

  /** An ok plan may fail when applied again, and still leave the stores as they were. */
  lemma SecondRunMayFail(s: Store, port: Step, bridge: Step)
    requires port.DeletePortStep? && bridge.DeleteBridgeStep? && port.bridge == bridge.name && bridge.name in s.bridges
    ensures var plan := Plan("p", [port, bridge]);
            Run(s, plan).0.ok && !Run(Run(s, plan).1, plan).0.ok
  {
    TwoSteps(s, port, bridge);
    var f := Exec(s, [port, bridge]);
    TwoSteps(f, port, bridge);
    assert !Results(f, [port, bridge])[0].ok;
  }
}
