/** Named locks with a time to live: the in-memory store, the table-backed store that must
    answer alike, and safety over every interleaving of their atomic sections. */
module Locks {
  import opened Common

  datatype Lease = Lease(owner: string, expiresAt: int)

  type Table = map<string, Lease>

  predicate Live(t: Table, key: string, now: int) {
    key in t && t[key].expiresAt > now
  }

  // ---- The in-memory store -------------------------------------------------------------

  function AfterTry(t: Table, key: string, owner: string, ttl: int, now: int): (bool, Table) {
    if Live(t, key, now) then (t[key].owner == owner, t)
    else (true, t[key := Lease(owner, now + ttl)])
  }

  function AfterRelease(t: Table, key: string, owner: string): Table {
    if key in t && t[key].owner == owner then Drop(t, key) else t
  }

  function LiveOwner(t: Table, key: string, now: int): Option<string> {
    if Live(t, key, now) then Some(t[key].owner) else None
  }

  class InMemoryLockStore {
    var held: Table

    constructor ()
      ensures held == map[]
    { held := map[]; }

    /** `now` was read before the section was entered. */
    method TryLock(key: string, owner: string, ttl: int, now: int) returns (ok: bool)
      modifies this
      ensures (ok, held) == AfterTry(old(held), key, owner, ttl, now)
    {
      var existing := Get(held, key);
      if existing.Some? && existing.value.expiresAt > now {
        return existing.value.owner == owner;
      }
      held := held[key := Lease(owner, now + ttl)];
      return true;
    }

    method Release(key: string, owner: string)
      modifies this
      ensures held == AfterRelease(old(held), key, owner)
    {
      var existing := Get(held, key);
      if existing.None? { return; }
      if existing.value.owner != owner { return; }
      held := Drop(held, key);
    }

    method CurrentOwner(key: string, now: int) returns (o: Option<string>)
      ensures o == LiveOwner(held, key, now)
    {
      var existing := Get(held, key);
      if existing.None? || existing.value.expiresAt <= now { return None; }
      return Some(existing.value.owner);
    }
  }

  // ---- The table-backed store ------------------------------------------------------------

  /** `DELETE ... WHERE key = :key AND expires_at <= :now` */
  function DeleteExpired(t: Table, key: string, now: int): Table {
    if key in t && t[key].expiresAt <= now then Drop(t, key) else t
  }

  /** The transaction: true when the insert commits; a conflict rolls everything back. */
  function InsertLease(t: Table, key: string, owner: string, ttl: int, now: int): (bool, Table) {
    var cleaned := DeleteExpired(t, key, now);
    if key in cleaned then (false, t) else (true, cleaned[key := Lease(owner, now + ttl)])
  }

  /** The read that follows a conflict. It does not look at the expiry. */
  predicate RereadOwner(t: Table, key: string, owner: string) {
    key in t && t[key].owner == owner
  }

  class SqlLockStore {
    var rows: Table

    constructor ()
      ensures rows == map[]
    { rows := map[]; }

    method TryLock(key: string, owner: string, ttl: int, now: int) returns (ok: bool)
      modifies this
      ensures (ok, rows) == SqlTryLock(old(rows), key, owner, ttl, now)
    {
      var snapshot := rows;
      if key in rows && rows[key].expiresAt <= now { rows := Drop(rows, key); }
      if key !in rows {
        rows := rows[key := Lease(owner, now + ttl)];
        return true;
      }
      rows := snapshot;
      var row := Get(rows, key);
      return row.Some? && row.value.owner == owner;
    }

    method Release(key: string, owner: string)
      modifies this
      ensures rows == AfterRelease(old(rows), key, owner)
    {
      if key in rows && rows[key].owner == owner { rows := Drop(rows, key); }
    }

    method CurrentOwner(key: string, now: int) returns (o: Option<string>)
      ensures o == LiveOwner(rows, key, now)
    {
      if key in rows && rows[key].expiresAt > now { return Some(rows[key].owner); }
      return None;
    }
  }

  /** A whole call with nothing in between its transaction and its second read. */
  function SqlTryLock(t: Table, key: string, owner: string, ttl: int, now: int): (bool, Table) {
    var r := InsertLease(t, key, owner, ttl, now);
    if r.0 then r else (RereadOwner(r.1, key, owner), r.1)
  }

  // ---- Refinement over call histories ----------------------------------------------------

  datatype Call =
    | TryCall(key: string, owner: string, ttl: int, now: int)
    | ReleaseCall(key: string, owner: string)
    | OwnerCall(key: string, now: int)

  datatype Answer = Tried(ok: bool) | Released | OwnerIs(owner: Option<string>)

  function MemoryCall(t: Table, c: Call): (Answer, Table) {
    match c
    case TryCall(key, owner, ttl, now) => var r := AfterTry(t, key, owner, ttl, now); (Tried(r.0), r.1)
    case ReleaseCall(key, owner) => (Released, AfterRelease(t, key, owner))
    case OwnerCall(key, now) => (OwnerIs(LiveOwner(t, key, now)), t)
  }

  function SqlCall(t: Table, c: Call): (Answer, Table) {
    match c
    case TryCall(key, owner, ttl, now) => var r := SqlTryLock(t, key, owner, ttl, now); (Tried(r.0), r.1)
    case ReleaseCall(key, owner) => (Released, AfterRelease(t, key, owner))
    case OwnerCall(key, now) => (OwnerIs(LiveOwner(t, key, now)), t)
  }

  function History(call: (Table, Call) -> (Answer, Table), calls: seq<Call>): (seq<Answer>, Table) {
    if calls == [] then ([], map[])
    else
      var before := History(call, calls[..|calls| - 1]);
      var r := call(before.1, calls[|calls| - 1]);
      (before.0 + [r.0], r.1)
  }

  /** Every history of calls gets the same answers from both stores, and leaves the table
      equal to the dictionary. */
  lemma {:induction false} SqlRefinesMemory(calls: seq<Call>)
    ensures History(SqlCall, calls) == History(MemoryCall, calls)
  {
    if calls == [] {
    } else {
      var n := |calls| - 1;
      SqlRefinesMemory(calls[..n]);
      var t := History(MemoryCall, calls[..n]).1;
      match calls[n]
      case TryCall(key, owner, ttl, now) => SqlTryLockIsTryLock(t, key, owner, ttl, now);
      case _ =>
    }
  }

  lemma SqlTryLockIsTryLock(t: Table, key: string, owner: string, ttl: int, now: int)
    ensures SqlTryLock(t, key, owner, ttl, now) == AfterTry(t, key, owner, ttl, now)
  {
    var l := Lease(owner, now + ttl);
    assert Drop(t, key)[key := l] == t[key := l];
  }

  // ---- Interleavings ---------------------------------------------------------------------

  // Each event is one atomic section, performed at time `at`; a lock attempt carries the
  // clock reading its caller took earlier. After a conflict the table-backed store reads the
  // row again as a section of its own.
  datatype Event =
    | Section(at: int, now: int, key: string, owner: string, ttl: int)
    | Reread(at: int, key: string, owner: string)
    | Free(at: int, key: string, owner: string)

  ghost predicate Timed(trace: seq<Event>) {
    && (forall i, j | 0 <= i <= j < |trace| :: trace[i].at <= trace[j].at)
    && forall i | 0 <= i < |trace| :: trace[i].Section? ==> trace[i].now <= trace[i].at
  }

  function After(t: Table, e: Event): Table {
    match e
    case Section(_, now, key, owner, ttl) => AfterTry(t, key, owner, ttl, now).1
    case Reread(_, _, _) => t
    case Free(_, key, owner) => AfterRelease(t, key, owner)
  }

  function TableAfter(trace: seq<Event>): Table {
    if trace == [] then map[] else After(TableAfter(trace[..|trace| - 1]), trace[|trace| - 1])
  }

  /** The table-backed store's transaction is the same section, and succeeds only where the
      in-memory section does. */
  lemma TransactionIsASection(t: Table, key: string, owner: string, ttl: int, now: int)
    ensures InsertLease(t, key, owner, ttl, now).1 == AfterTry(t, key, owner, ttl, now).1
    ensures InsertLease(t, key, owner, ttl, now).0 <==> !Live(t, key, now)
    ensures InsertLease(t, key, owner, ttl, now).0 ==> AfterTry(t, key, owner, ttl, now).0
  {
    SqlTryLockIsTryLock(t, key, owner, ttl, now);
  }

  /** Event i installs a new lease. */
  predicate Installs(trace: seq<Event>, i: nat)
    requires i < |trace|
  {
    trace[i].Section? && !Live(TableAfter(trace[..i]), trace[i].key, trace[i].now)
  }

  /** Event j tells its caller that it holds the lock. */
  predicate Succeeds(trace: seq<Event>, j: nat)
    requires j < |trace|
  {
    match trace[j]
    case Section(_, now, key, owner, ttl) => AfterTry(TableAfter(trace[..j]), key, owner, ttl, now).0
    case Reread(_, key, owner) => RereadOwner(TableAfter(trace[..j]), key, owner)
    case Free(_, _, _) => false
  }

  function ExpiryOf(e: Event): int
    requires e.Section?
  {
    e.now + e.ttl
  }

  ghost predicate NotReleased(trace: seq<Event>, i: nat, j: nat)
    requires i < j <= |trace| && trace[i].Section?
  {
    forall m | i < m < j :: !(trace[m].Free? && trace[m].key == trace[i].key && trace[m].owner == trace[i].owner)
  }

  /** An installed lease stands, unchanged, until its owner releases it or its expiry passes:
      no stale reading and no stale release can displace it. */
  lemma {:induction false} LeaseStands(trace: seq<Event>, i: nat, j: nat)
    requires Timed(trace) && i < j <= |trace| && Installs(trace, i)
    requires NotReleased(trace, i, j)
    requires forall m | i < m < j :: trace[m].at < ExpiryOf(trace[i])
    ensures trace[i].key in TableAfter(trace[..j])
    ensures TableAfter(trace[..j])[trace[i].key] == Lease(trace[i].owner, ExpiryOf(trace[i]))
    decreases j
  {
    var e := trace[j - 1];
    assert trace[..j][..j - 1] == trace[..j - 1];
    if j > i + 1 {
      LeaseStands(trace, i, j - 1);
      assert e.at < ExpiryOf(trace[i]);
      assert e.Section? ==> e.now <= e.at;
    }
  }

  /** Before the expiry or the owner's release, nobody else is told that it holds the lock:
      neither by a section nor by the second read. */
  lemma NoOtherSucceeds(trace: seq<Event>, i: nat, j: nat)
    requires Timed(trace) && i < j < |trace| && Installs(trace, i)
    requires NotReleased(trace, i, j) && trace[j].at < ExpiryOf(trace[i])
    requires trace[j].key == trace[i].key && trace[j].owner != trace[i].owner
    ensures !Succeeds(trace, j)
  {
    forall m | i < m < j ensures trace[m].at < ExpiryOf(trace[i]) { assert trace[m].at <= trace[j].at; }
    LeaseStands(trace, i, j);
  }

  /** Owner holds key after the first j events: it installed a lease that it has not released
      and that has not expired. */
  ghost predicate Holds(trace: seq<Event>, j: nat, key: string, owner: string)
    requires j <= |trace|
  {
    exists i :: HoldsSince(trace, i, j, key, owner)
  }

  ghost predicate HoldsSince(trace: seq<Event>, i: int, j: nat, key: string, owner: string)
    requires j <= |trace|
  {
    && 0 <= i < j && Installs(trace, i) && trace[i].key == key && trace[i].owner == owner
    && NotReleased(trace, i, j)
    && trace[j - 1].at < ExpiryOf(trace[i])
  }

  /** At most one owner holds a key at any moment of any interleaving. */
  lemma MutualExclusion(trace: seq<Event>, j: nat, key: string, a: string, b: string)
    requires Timed(trace) && j <= |trace| && Holds(trace, j, key, a) && Holds(trace, j, key, b)
    ensures a == b
  {
    var i :| HoldsSince(trace, i, j, key, a);
    var k :| HoldsSince(trace, k, j, key, b);
    forall m | i < m < j ensures trace[m].at < ExpiryOf(trace[i]) { assert trace[m].at <= trace[j - 1].at; }
    forall m | k < m < j ensures trace[m].at < ExpiryOf(trace[k]) { assert trace[m].at <= trace[j - 1].at; }
    LeaseStands(trace, i, j);
    LeaseStands(trace, k, j);
  }

  /** Every row was installed by its owner, who has not released it since. */
  lemma {:induction false} RowHasInstaller(trace: seq<Event>, j: nat, key: string) returns (i: nat)
    requires j <= |trace| && key in TableAfter(trace[..j])
    ensures i < j && Installs(trace, i) && trace[i].key == key && NotReleased(trace, i, j)
    ensures TableAfter(trace[..j])[key] == Lease(trace[i].owner, ExpiryOf(trace[i]))
    decreases j
  {
    var k := j - 1;
    assert trace[..j][..k] == trace[..k];
    if trace[k].key == key && Installs(trace, k) {
      i := k;
    } else {
      i := RowHasInstaller(trace, k, key);
    }
  }

  /** Holding a lock is having one's own unexpired row in the table. */
  lemma HoldsIff(trace: seq<Event>, j: nat, key: string, owner: string)
    requires Timed(trace) && 0 < j <= |trace|
    ensures var t := TableAfter(trace[..j]);
      Holds(trace, j, key, owner) <==> Live(t, key, trace[j - 1].at) && t[key].owner == owner
  {
    var t := TableAfter(trace[..j]);
    if Live(t, key, trace[j - 1].at) && t[key].owner == owner {
      var i := RowHasInstaller(trace, j, key);
      assert HoldsSince(trace, i, j, key, owner);
    }
    if Holds(trace, j, key, owner) {
      var i :| HoldsSince(trace, i, j, key, owner);
      forall m | i < m < j ensures trace[m].at < ExpiryOf(trace[i]) { assert trace[m].at <= trace[j - 1].at; }
      LeaseStands(trace, i, j);
    }
  }

  /** When the row behind an answer of true expires: the one found, or the one installed. */
  function ExpiryBehind(t: Table, e: Event): int
    requires e.Section? || (e.Reread? && e.key in t)
  {
    match e
    case Section(_, now, key, _, ttl) => if Live(t, key, now) then t[key].expiresAt else now + ttl
    case Reread(_, key, _) => t[key].expiresAt
  }

  /** A caller who is told that it holds the lock does hold it, exactly when the row it was told
      about has not expired by then: a stale clock reading or a late second read can be wrong. */
  lemma TrueMeansHeldIff(trace: seq<Event>, j: nat)
    requires Timed(trace) && j < |trace| && Succeeds(trace, j)
    ensures Holds(trace, j + 1, trace[j].key, trace[j].owner)
      <==> ExpiryBehind(TableAfter(trace[..j]), trace[j]) > trace[j].at
  {
    assert trace[..j + 1][..j] == trace[..j];
    HoldsIff(trace, j + 1, trace[j].key, trace[j].owner);
  }

  /** A second read answers true only to the owner recorded when it reads. It may do so for a
      lease that has expired in the meantime. */
  lemma RereadMayBeLate(key: string, owner: string, ttl: int)
    requires ttl > 0
    ensures var trace := [Section(0, 0, key, owner, ttl), Section(0, 0, key, owner, ttl), Reread(ttl, key, owner)];
            Timed(trace) && Succeeds(trace, 2) && !Holds(trace, 3, key, owner)
  {
    var first := Section(0, 0, key, owner, ttl);
    var trace := [first, first, Reread(ttl, key, owner)];
    assert trace[..0] == [] && trace[..1] == [first] && trace[..2] == [first, first];
    assert [first][..0] == [] && [first, first][..1] == [first];
    assert TableAfter([first]) == map[key := Lease(owner, ttl)];
    assert TableAfter([first, first]) == map[key := Lease(owner, ttl)];
  }

  /** A successful attempt leaves a lease of at least the requested length exactly when there
      was no live lease, or the live one already ran that long: asking again does not extend. */
  lemma FullTtlIff(t: Table, key: string, owner: string, ttl: int, now: int)
    requires AfterTry(t, key, owner, ttl, now).0
    ensures key in AfterTry(t, key, owner, ttl, now).1
    ensures AfterTry(t, key, owner, ttl, now).1[key].expiresAt >= now + ttl
            <==> !Live(t, key, now) || t[key].expiresAt >= now + ttl
  {
  }

  /** The owner reported after any events, at the time of the last, is the one that holds the key
      by the history of installs and releases. */
  lemma OwnerIsHolder(trace: seq<Event>, j: nat, key: string, owner: string)
    requires Timed(trace) && 0 < j <= |trace|
    ensures LiveOwner(TableAfter(trace[..j]), key, trace[j - 1].at) == Some(owner) <==> Holds(trace, j, key, owner)
  {
    HoldsIff(trace, j, key, owner);
  }

  /** At any later time too: nobody is reported exactly when there is no row or it has expired. */
  lemma OwnerAt(t: Table, key: string, now: int)
    ensures LiveOwner(t, key, now).None? <==> key !in t || t[key].expiresAt <= now
    ensures LiveOwner(t, key, now).Some? ==> LiveOwner(t, key, now).value == t[key].owner
  {
  }
}
