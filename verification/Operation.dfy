/** A long-running operation: its state machine and the history of events it leaves. */
module Operation {
  import opened Common

  datatype Status = Accepted | Planning | Running | Verifying | Succeeded | Failed | Cancelled | RolledBack

  datatype ResourceRef = ResourceRef(kind: string, id: string)
  datatype OperationError = OperationError(code: string, message: string, details: Dict)
  datatype Event = Event(sequence: int, at: int, status: Status, message: string, payload: Dict)

  /** Why a transition is refused. */
  datatype Refusal = CannotMove(from: Status, to: Status) | ErrorNotAllowed(to: Status)

  function AllowedTransitions(s: Status): set<Status> {
    match s
    case Accepted => {Planning, Cancelled, Failed}
    case Planning => {Running, Cancelled, Failed}
    case Running => {Verifying, Cancelled, Failed, RolledBack}
    case Verifying => {Status.Succeeded, Failed, RolledBack}
    case _ => {}
  }

  predicate IsTerminal(s: Status) { s in {Status.Succeeded, Failed, Cancelled, RolledBack} }

  // ---- One operation as a value --------------------------------------------------------------

  datatype State = State(status: Status, updatedAt: int, events: seq<Event>, error: Option<OperationError>)

  datatype Call =
    | TransitionTo(to: Status, now: int, message: string, payload: Option<Dict>, error: Option<OperationError>)
    | Log(now: int, message: string, payload: Option<Dict>)

  function Accepting(now: int, message: string): State {
    State(Accepted, now, [Event(1, now, Accepted, message, map[])], None)
  }

  function Verdict(s: State, c: Call): Option<Refusal> {
    if c.Log? then None
    else if c.to !in AllowedTransitions(s.status) then Some(CannotMove(s.status, c.to))
    else if c.error.Some? && c.to !in {Failed, RolledBack} then Some(ErrorNotAllowed(c.to))
    else None
  }

  function Appended(s: State, c: Call): Event {
    Event(|s.events| + 1, c.now, if c.Log? then s.status else c.to, c.message, OrElse(c.payload, map[]))
  }

  /** The state after a call; a refused call changes nothing. */
  function Step(s: State, c: Call): State {
    if Verdict(s, c).Some? then s
    else State(
      if c.Log? then s.status else c.to,
      c.now,
      s.events + [Appended(s, c)],
      if c.TransitionTo? && c.error.Some? then c.error else s.error)
  }

  function Run(s: State, calls: seq<Call>): State {
    if calls == [] then s
    else Step(Run(s, calls[..|calls| - 1]), calls[|calls| - 1])
  }

  // ---- Reading a history ----------------------------------------------------------------------

  /** The statuses of a history, each run of equal ones written once. */
  function Collapse(events: seq<Event>): seq<Status> {
    if events == [] then [] else
    var n := |events| - 1;
    var before := Collapse(events[..n]);
    if n > 0 && events[n - 1].status == events[n].status then before else before + [events[n].status]
  }

  predicate IsPath(path: seq<Status>) {
    && path != [] && path[0] == Accepted
    && forall i | 0 < i < |path| :: path[i] in AllowedTransitions(path[i - 1])
  }

  /** What a history must look like for the table alone, without looking at the calls. */
  predicate WellFormed(events: seq<Event>) {
    && events != []
    && (forall i | 0 <= i < |events| :: events[i].sequence == i + 1)
    && IsPath(Collapse(events))
  }

  // ---- Which transitions are granted, by stages -----------------------------------------------

  /** The way to success. */
  function Stage(s: Status): Option<nat> {
    match s
    case Accepted => Some(0)
    case Planning => Some(1)
    case Running => Some(2)
    case Verifying => Some(3)
    case Succeeded => Some(4)
    case _ => None
  }

  /** An operation under way may go one stage on, or fail; it may be cancelled before anything is
      verified, and rolled back once something runs. Nothing else is granted. */
  predicate MayGo(from: Status, to: Status) {
    && Stage(from).Some? && Stage(from).value < 4
    && (|| Stage(to) == Some(Stage(from).value + 1)
        || to == Failed
        || (to == Cancelled && Stage(from).value <= 2)
        || (to == RolledBack && Stage(from).value >= 2))
  }

  /** A transition is granted if and only if the stages allow it and an error comes only with a
      failure or a rollback; which refusal is given, likewise. */
  lemma GrantedIff(s: State, c: Call)
    requires c.TransitionTo?
    ensures Verdict(s, c).None? <==> MayGo(s.status, c.to) && (c.error.Some? ==> c.to == Failed || c.to == RolledBack)
    ensures Verdict(s, c) == Some(CannotMove(s.status, c.to)) <==> !MayGo(s.status, c.to)
    ensures Verdict(s, c) == Some(ErrorNotAllowed(c.to)) <==>
      MayGo(s.status, c.to) && c.error.Some? && c.to != Failed && c.to != RolledBack
    ensures IsTerminal(s.status) <==> forall to :: !MayGo(s.status, to)
  {
    assert s.status == Accepted ==> MayGo(s.status, Planning);
    assert s.status in {Planning, Running, Verifying} ==> MayGo(s.status, Failed);
  }

  // ---- What every run keeps ---------------------------------------------------------------------

  lemma CollapseAppend(events: seq<Event>, e: Event)
    ensures Collapse(events + [e]) ==
      if events != [] && events[|events| - 1].status == e.status then Collapse(events)
      else Collapse(events) + [e.status]
  {
    assert (events + [e])[..|events|] == events;
  }

  lemma {:induction false} CollapseEnds(events: seq<Event>)
    requires events != []
    ensures var c := Collapse(events); c != [] && c[|c| - 1] == events[|events| - 1].status
  {
    if |events| <= 1 {
    } else {
      CollapseEnds(events[..|events| - 1]);
    }
  }

  lemma StepKeepsHistory(s: State, c: Call)
    requires WellFormed(s.events) && s.events[|s.events| - 1].status == s.status
    ensures var t := Step(s, c); WellFormed(t.events) && t.events[|t.events| - 1].status == t.status
    ensures Collapse(Step(s, c).events) ==
      if c.TransitionTo? && Verdict(s, c).None? then Collapse(s.events) + [c.to] else Collapse(s.events)
  {
    if Verdict(s, c).None? {
      CollapseAppend(s.events, Appended(s, c));
      CollapseEnds(s.events);
      if c.TransitionTo? { PathExtends(Collapse(s.events), c.to); }
    }
  }

  lemma PathExtends(path: seq<Status>, to: Status)
    requires IsPath(path) && to in AllowedTransitions(path[|path| - 1])
    ensures IsPath(path + [to])
  {
  }

  lemma AcceptedAlone(now: int, message: string)
    ensures Collapse(Accepting(now, message).events) == [Accepted]
  {
    var events := Accepting(now, message).events;
    assert events == [] + [events[0]];
    CollapseAppend([], events[0]);
  }

  /** Sequences 1..n, the last event carries the current status and time, and the statuses
      follow the table. */
  lemma {:induction false} HistoryIsAPath(now: int, message: string, calls: seq<Call>)
    ensures var s := Run(Accepting(now, message), calls); var n := |s.events|;
      WellFormed(s.events) && s.events[n - 1].status == s.status && s.events[n - 1].at == s.updatedAt
  {
    var init := Accepting(now, message);
    if calls == [] {
      AcceptedAlone(now, message);
    } else {
      HistoryIsAPath(now, message, calls[..|calls| - 1]);
      StepKeepsHistory(Run(init, calls[..|calls| - 1]), calls[|calls| - 1]);
    }
  }

  /** How far a status lies from acceptance at most. */
  function Depth(s: Status): nat {
    match s
    case Accepted => 0
    case Planning => 1
    case Running => 2
    case Verifying => 3
    case _ => 4
  }

  /** A path through the table spells out its last status. */
  lemma {:induction false} PathsAreForced(path: seq<Status>)
    requires IsPath(path)
    ensures var last := path[|path| - 1];
      && |path| - 1 <= Depth(last) <= 4
      && (!IsTerminal(last) ==> path == [Accepted, Planning, Running, Verifying][..Depth(last) + 1])
      && (last == Status.Succeeded ==> path == [Accepted, Planning, Running, Verifying, Status.Succeeded])
      && (last == RolledBack ==> |path| >= 4)
      && forall i | 0 <= i < |path| - 1 :: !IsTerminal(path[i])
  {
    if |path| > 1 {
      var n := |path| - 1;
      PathsAreForced(path[..n]);
      assert path == path[..n] + [path[n]];
      assert path[n] in AllowedTransitions(path[..n][n - 1]);
    } else {
      assert path == [Accepted];
    }
  }

  /** At most four status changes; a success went through every stage; terminal is final. */
  lemma HistoriesAreShort(now: int, message: string, calls: seq<Call>)
    ensures var s := Run(Accepting(now, message), calls); var path := Collapse(s.events);
      && 1 <= |path| <= 5
      && path[|path| - 1] == s.status
      && (s.status == Status.Succeeded ==> path == [Accepted, Planning, Running, Verifying, Status.Succeeded])
      && (!IsTerminal(s.status) ==> path == [Accepted, Planning, Running, Verifying][..Depth(s.status) + 1])
  {
    HistoryIsAPath(now, message, calls);
    var s := Run(Accepting(now, message), calls);
    CollapseEnds(s.events);
    PathsAreForced(Collapse(s.events));
  }

  /** The transitions of a run that were not refused, in order. */
  function Granted(s: State, calls: seq<Call>): seq<Call> {
    if calls == [] then [] else
    var n := |calls| - 1;
    var before := Granted(s, calls[..n]);
    if calls[n].TransitionTo? && Verdict(Run(s, calls[..n]), calls[n]).None? then before + [calls[n]] else before
  }

  /** The granted calls that carry an error. */
  function Errors(calls: seq<Call>): seq<OperationError> {
    if calls == [] then [] else
    Errors(calls[..|calls| - 1])
    + (var c := calls[|calls| - 1]; if c.TransitionTo? && c.error.Some? then [c.error.value] else [])
  }

  /** The collapsed history is the accepted status and the granted targets. */
  lemma {:induction false} CollapseIsGranted(now: int, message: string, calls: seq<Call>)
    ensures var g := Granted(Accepting(now, message), calls);
      Collapse(Run(Accepting(now, message), calls).events) == [Accepted] + Targets(g)
  {
    var init := Accepting(now, message);
    if calls == [] {
      AcceptedAlone(now, message);
    } else {
      var n := |calls| - 1;
      CollapseIsGranted(now, message, calls[..n]);
      HistoryIsAPath(now, message, calls[..n]);
      StepKeepsHistory(Run(init, calls[..n]), calls[n]);
      TargetsAppend(Granted(init, calls[..n]), calls[n]);
      Regroup(Accepted, Targets(Granted(init, calls[..n])), calls[n]);
    }
  }

  lemma Regroup(first: Status, targets: seq<Status>, c: Call)
    ensures c.TransitionTo? ==> ([first] + targets) + [c.to] == [first] + (targets + [c.to])
  {
  }

  lemma TargetsAppend(calls: seq<Call>, c: Call)
    ensures Targets(calls + [c]) == Targets(calls) + if c.TransitionTo? then [c.to] else []
  {
    assert (calls + [c])[..|calls|] == calls;
  }

  function Targets(calls: seq<Call>): seq<Status> {
    if calls == [] then []
    else var c := calls[|calls| - 1];
      Targets(calls[..|calls| - 1]) + (if c.TransitionTo? then [c.to] else [])
  }

  lemma ErrorsAppend(calls: seq<Call>, c: Call)
    ensures Errors(calls + [c]) ==
      Errors(calls) + if c.TransitionTo? && c.error.Some? then [c.error.value] else []
  {
    assert (calls + [c])[..|calls|] == calls;
  }

  /** A status that may carry an error is never left. */
  lemma ErrorStep(s: State, c: Call)
    requires s.error.Some? ==> s.status in {Failed, RolledBack}
    ensures Step(s, c).error.Some? ==> Step(s, c).status in {Failed, RolledBack}
    ensures c.TransitionTo? && Verdict(s, c).None? && c.error.Some? ==> s.error.None? && Step(s, c).error == c.error
    ensures !(c.TransitionTo? && Verdict(s, c).None? && c.error.Some?) ==> Step(s, c).error == s.error
  {}

  /** The error is written at most once, by the step into a failed or rolled-back status, and
      is the one that step was given. */
  lemma {:induction false} ErrorWrittenOnce(now: int, message: string, calls: seq<Call>)
    ensures var s := Run(Accepting(now, message), calls); var errors := Errors(Granted(Accepting(now, message), calls));
      && errors == (if s.error.Some? then [s.error.value] else [])
      && (s.error.Some? ==> s.status in {Failed, RolledBack})
  {
    var init := Accepting(now, message);
    if calls == [] {
    } else {
      var n := |calls| - 1;
      ErrorWrittenOnce(now, message, calls[..n]);
      ErrorsAppend(Granted(init, calls[..n]), calls[n]);
      ErrorStep(Run(init, calls[..n]), calls[n]);
    }
  }

  /** The calls of a run that were not refused, in order. */
  function Kept(s: State, calls: seq<Call>): seq<Call> {
    if calls == [] then [] else
    var n := |calls| - 1;
    Kept(s, calls[..n]) + (if Verdict(Run(s, calls[..n]), calls[n]).None? then [calls[n]] else [])
  }

  /** An event says what its call said. */
  predicate Tells(e: Event, c: Call) {
    && e.at == c.now && e.message == c.message && e.payload == OrElse(c.payload, map[])
    && (c.TransitionTo? ==> e.status == c.to)
  }

  /** The history is the acceptance and one event for each call not refused, each with the time,
      the message and the payload of its call. */
  lemma {:induction false} HistoryTells(now: int, message: string, calls: seq<Call>)
    ensures var s := Run(Accepting(now, message), calls); var kept := Kept(Accepting(now, message), calls);
      && |s.events| == 1 + |kept|
      && s.events[0].at == now && s.events[0].message == message && s.events[0].payload == map[]
      && (forall k | 0 <= k < |kept| :: Tells(s.events[k + 1], kept[k]))
      && s.updatedAt == (if kept == [] then now else kept[|kept| - 1].now)
  {
    if calls == [] {
    } else {
      HistoryTells(now, message, calls[..|calls| - 1]);
    }
  }

  /** A finished operation only collects log lines: status and error stay for good. */
  lemma {:induction false} TerminalIsFinal(s: State, calls: seq<Call>)
    requires IsTerminal(s.status)
    ensures Run(s, calls).status == s.status && Run(s, calls).error == s.error
    ensures s.events <= Run(s, calls).events && Granted(s, calls) == []
  {
    if calls == [] {
    } else {
      TerminalIsFinal(s, calls[..|calls| - 1]);
    }
  }

  /** Every path of the table is the collapsed history of some run. */
  lemma {:induction false} EveryPathHappens(now: int, message: string, path: seq<Status>) returns (calls: seq<Call>)
    requires IsPath(path)
    ensures Collapse(Run(Accepting(now, message), calls).events) == path
  {
    if |path| == 1 {
      calls := [];
      CollapseIsGranted(now, message, calls);
      assert path == [Accepted];
    } else {
      var n := |path| - 1;
      var before := EveryPathHappens(now, message, path[..n]);
      var c := TransitionTo(path[n], now, "", None, None);
      calls := before + [c];
      assert calls[..|before|] == before;
      HistoryIsAPath(now, message, before);
      var s := Run(Accepting(now, message), before);
      CollapseEnds(s.events);
      assert path[n] in AllowedTransitions(path[n - 1]);
      StepKeepsHistory(s, c);
      assert path == path[..n] + [path[n]];
    }
  }

  // ---- The object ----------------------------------------------------------------------------

  class Operation {
    const id: string
    const kind: string
    const resource: ResourceRef
    const createdAt: int
    const createdBy: Option<string>
    var updatedAt: int
    var status: Status
    var events: seq<Event>
    var error: Option<OperationError>

    ghost function Value(): State
      reads this
    { State(status, updatedAt, events, error) }

    constructor Accept(id: string, kind: string, resource: ResourceRef, now: int, createdBy: Option<string>,
                       message: string)
      ensures Value() == Accepting(now, message)
      ensures this.id == id && this.kind == kind && this.resource == resource
      ensures createdAt == now && this.createdBy == createdBy
    {
      this.id, this.kind, this.resource, createdAt, this.createdBy := id, kind, resource, now, createdBy;
      updatedAt, status, error := now, Accepted, None;
      events := [Event(1, now, Accepted, message, map[])];
    }

    method TransitionTo(newStatus: Status, now: int, message: string, payload: Option<Dict>,
                        error: Option<OperationError>)
      returns (r: Result<Event, Refusal>)
      modifies this
      ensures var c := Call.TransitionTo(newStatus, now, message, payload, error);
        && Value() == Step(old(Value()), c)
        && r == match Verdict(old(Value()), c) {
             case Some(why) => Err(why)
             case None => Ok(Appended(old(Value()), c))
           }
    {
      if newStatus !in AllowedTransitions(status) { return Err(CannotMove(status, newStatus)); }
      if error.Some? && newStatus !in {Failed, RolledBack} { return Err(ErrorNotAllowed(newStatus)); }
      status := newStatus;
      updatedAt := now;
      if error.Some? { this.error := error; }
      var event := Event(|events| + 1, now, newStatus, message, OrElse(payload, map[]));
      events := events + [event];
      return Ok(event);
    }

    method Log(now: int, message: string, payload: Option<Dict>) returns (event: Event)
      modifies this
      ensures Value() == Step(old(Value()), Call.Log(now, message, payload))
      ensures event == Appended(old(Value()), Call.Log(now, message, payload))
    {
      event := Event(|events| + 1, now, status, message, OrElse(payload, map[]));
      updatedAt := now;
      events := events + [event];
    }
  }
}
