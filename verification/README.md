# Verified models of the NetOS agent and the SDN controller

This project models the parts of the repository where a mistake would be hard to see: the
agent's plan machine and the controller's in-process stand-in for it, the snapshots both rely
on, the concurrent stores (named locks, the rate limiter, the outbox), the translators (CoreDNS
zone files, nftables scripts, OVSDB tables), the two entity state machines (`Operation`,
`SecurityPolicy`), the FNV lock keys and the address pools of a `Subnet`. Every statement below is
proved for all inputs, all runs or all interleavings.

Objects that the source updates in place are classes with the same fields. Each of their methods
equates the new state with a function of the old one, and the theorems are about those functions.
Python dictionaries are maps. Floats are reals, timestamps are integers (reals in the rate limiter),
and clocks are parameters. Where the source iterates over a dictionary the order is left open, except where
the order decides the output (nftables policies, event logs, rule lists).

## Layout

| file | models |
|---|---|
| `Common`, `Ordering`, `Text` | options, results, dictionaries; Python's stable `sorted`; decimal text |
| `OvsState` | the read-only OVS view, its canonical form and hash |
| `OvsStore`, `OvsAdapter` | the in-memory OVS: contents, dumps; the mutable objects |
| `EdgeServices` | DHCP, DNS, NAT and firewall specs and the dictionary stores that keep them |
| `PlanMachine`, `Reapply`, `ApplyPlan` | plans as functions on stores; applying a plan twice; the use cases over the live adapters |
| `AgentNode`, `FakeAgent` | the controller's own implementation of plans, snapshots, restores |
| `RateLimit`, `Locks`, `Fnv`, `Outbox` | token bucket, lock stores, lock keys, outbox log |
| `DnsZone`, `CorednsDns`, `DnsAgreement`, `DnsTidy` | zone files as text; the CoreDNS adapter over a directory of them; the adapter beside the dictionary store; on which zones the two agree |
| `Nftables` | firewall policies to nftables statements |
| `OvsTables` | OVSDB JSON tables to the bridge tree |
| `SecurityPolicy`, `Operation`, `Subnet` | entities |

## What the proofs found

Some expected properties do not hold of the code. The members named here say where they fail and,
in the `...Iff` statements, exactly when they hold.

- Applying a plan again changes nothing if and only if it leaves no orphan: a port whose last step
  ensures it before every step that ensures its bridge, on a bridge that the store lacks and the plan
  never deletes (`Reapply.StableIff`). Every plan that came back ok is therefore stable
  (`Reapply.ReapplyIsStable`); one that failed need not be (`Reapply.FailedPlanNeedNotBeStable`). An ok plan
  comes back ok the second time if and only if no port step stands before every step on a bridge that
  the plan finally deletes (`Reapply.SecondRunOkIff`, `Reapply.SecondRunMayFail`).
- The controller's stand-in agrees with the agent on every plan, but its restore drops DHCP, DNS, NAT
  and firewall state and replaces empty type names (`AgentNode.RestoreIsExactIff`, `AgentNode.RestoresAgreeIff`).
- A restore fails if and only if a bridge, port or interface of its payload has no name
  (`OvsStore.RestoreFailsIff`), and by then the OVS version has been overwritten: it happens wholly or not
  at all if and only if no name is missing or the payload brings no other version
  (`OvsStore.RestoreIsAtomicIff`, `OvsStore.RestoreMayHalfHappen`).
- Asking again for a lock one already holds answers true without extending the lease, although
  `src/sdn_controller/ports/locks.py:10-12` promises it until the ttl (`Locks.FullTtlIff`); the second read
  of the table-backed store may answer true for a lease that has expired meanwhile (`Locks.RereadMayBeLate`);
  an answer of true means that the lock is held exactly when the row behind it has not expired by then
  (`Locks.TrueMeansHeldIff`).
- Every nftables policy chain ends in a verdict, so with several policies only the first in
  dictionary order ever decides (`Nftables.OnlyTheFirstPolicyDecides`, `Nftables.SecondPolicyIsIgnored`); the comment at
  `src/netos_agent/adapters/firewall_nftables/adapter.py:196-198` calls all of them active. After `nft` refuses a
  script, repeating the same apply or delete reports no change and leaves the kernel as it was
  (`Nftables.RetryAfterFailureIsNoop`, `Nftables.RetryAfterFailedDeleteIsNoop`); over whole runs the kernel holds
  the policies as of the last call that answered true (`Nftables.KernelIsLastLoad`, `Nftables.RunSyncIff`).
- Call a zone tidy when it is valid, its name and each record's value are single words, and its SOA address
  stays on its line; record names and TTLs are free. Over tidy zones the CoreDNS adapter answers like the
  dictionary store on all runs if and only if no zone shares its file with another name (a trailing dot is
  dropped), no address record's name contains a space, and dropping the records of negative TTL changes the
  first address of no name (`DnsTidy.FilesAgreeIff`). It also lists the same zones if and only if every record
  name is a single word and no TTL is negative (`DnsTidy.FilesListIff`). Tidy zones are always written
  differently (`DnsTidy.TidyIsInjective`).
- Valid zones need not be tidy, and then more may happen. Among what does: an alias whose unchecked value runs
  over a line end is written as two records (`DnsAgreement.AliasValueIsNotOneRecord`); an alias and an address
  record with spaces may have one line (`DnsTidy.OneLineTwoZones`); an SOA address that runs over a line end may
  carry a record, which the file then resolves (`DnsTidy.SoaMayCarryARecord`).
- A port tag that OVSDB writes as a tagged one-element set is read as no tag
  (`OvsTables.DecodesExactlyIff`).
- `SecurityPolicy.update` is documented to reset the compilation, but does not
  (`SecurityPolicy.UpdateKeepsCompilation`).
- The limiter is exactly greedy, and its windows are bounded, by a clock of any reading if and only if that
  clock never steps back (`RateLimit.ExactIffSteady`, `RateLimit.BoundedIffSteady`).
- The state hash ignores the order of bridges, ports or interfaces if and only if same-named ones have one
  canonical form (`OvsState.HashIgnoresOrderIff` and its two companions).

## Model

| member | source | states |
|---|---|---|
| `OvsState.HashDecidesContent` | src/netos_agent/core/entities/ovs_state.py:67-86 | for states with distinct names per level, equal hashes if and only if same version and same bridges, ports, interfaces, maps and trunk multisets, whatever the tuple order |
| `OvsState.BridgeNormal` | src/netos_agent/core/entities/ovs_state.py:51-64 | the same at bridge level |
| `OvsState.PortNormal` | src/netos_agent/core/entities/ovs_state.py:33-48 | the same at port level, trunks as a multiset |
| `OvsState.DuplicateNamesBreakTheHash` | src/netos_agent/core/entities/ovs_state.py:72-76 | two different bridges of one name hash differently in the two orders: distinct names are needed |
| `OvsState.OrderFreeIff` | src/netos_agent/core/entities/ovs_state.py:63-63 | a list sorted by name and canonicalised ignores the order it came in if and only if same-named elements have one canonical form |
| `OvsState.HashIgnoresOrderIff` | src/netos_agent/core/entities/ovs_state.py:72-86 | so the hash ignores the order of the bridges exactly then |
| `OvsState.BridgeIgnoresOrderIff` | src/netos_agent/core/entities/ovs_state.py:58-64 | likewise a bridge and its ports |
| `OvsState.PortIgnoresOrderIff` | src/netos_agent/core/entities/ovs_state.py:41-48 | likewise a port and its interfaces |
| `OvsStore.PortsEqualIsEquality` | src/netos_agent/adapters/ovsdb_fake/adapter.py:296-307 | the comparison that ignores names is equality of content on stores whose keys are the names |
| `OvsStore.EnsureBridgeExact` | src/netos_agent/adapters/ovsdb_fake/adapter.py:39-61 | keeps key-equals-name; changed exactly when the content differs |
| `OvsStore.DeleteBridgeExact` | src/netos_agent/adapters/ovsdb_fake/adapter.py:63-67 | the same for deleting a bridge with its ports |
| `OvsStore.EnsurePortExact` | src/netos_agent/adapters/ovsdb_fake/adapter.py:69-100 | the same for a port, which afterwards holds exactly what was asked for |
| `OvsStore.DeletePortExact` | src/netos_agent/adapters/ovsdb_fake/adapter.py:102-105 | the same for deleting a port |
| `OvsStore.DumpRoundTrip` | src/netos_agent/adapters/ovsdb_fake/adapter.py:140-150 | reading any dump of a well-formed store gives back its contents and version, whatever the list order |
| `OvsStore.ReadBackPort` | src/netos_agent/adapters/ovsdb_fake/adapter.py:213-233 | a port's dictionary reads back as the port |
| `OvsStore.ReadBackBridge` | src/netos_agent/adapters/ovsdb_fake/adapter.py:261-278 | a bridge's dictionary reads back as the bridge |
| `OvsStore.RestoredIsWf` | src/netos_agent/adapters/ovsdb_fake/adapter.py:147-150 | whatever is restored, keys equal names at all three levels afterwards |
| `OvsStore.RestoreFailsIff` | src/netos_agent/adapters/ovsdb_fake/adapter.py:147-150 | reading the bridges fails if and only if a bridge, port or interface document has no name |
| `OvsStore.RestoreIsAtomicIff` | src/netos_agent/adapters/ovsdb_fake/adapter.py:147-150 | a restore happens wholly or not at all if and only if no name is missing or the payload brings no other version |
| `OvsStore.RestoreMayHalfHappen` | src/netos_agent/adapters/ovsdb_fake/adapter.py:147-150 | a payload with another version and one nameless bridge changes the version and nothing else |
| `OvsStore.ReadersAgree` | src/netos_agent/adapters/ovsdb_fake/adapter.py:280-294 | all readings of one store have one hash, whatever the dictionary order |
| `OvsStore.HashDecidesStore` | src/netos_agent/adapters/ovsdb_fake/adapter.py:191-294 | readings of two stores hash alike if and only if the versions agree and the stores are equal but for the order of trunks |
| `OvsStore.StateShows` | src/netos_agent/adapters/ovsdb_fake/adapter.py:191-287 | a reading shows every bridge, port and interface with every field as stored, trunks sorted, interfaces up |
| `Reapply.OptionsSay` | src/netos_agent/adapters/ovsdb_fake/adapter.py:121-129 | which tunnel option carries which argument |
| `OvsStore.AbsentKeysTakeDefaults` | src/netos_agent/adapters/ovsdb_fake/adapter.py:147-278 | what a payload leaves out: the current version, internal interfaces, system bridges, empty otherwise |
| `OvsAdapter.FakeOvsdb.EnsureBridge` | src/netos_agent/adapters/ovsdb_fake/adapter.py:39-61 | flag and new contents are those of the pure operation; existing ports are kept; bridge objects stay unshared |
| `OvsAdapter.FakeOvsdb.DeleteBridge` | src/netos_agent/adapters/ovsdb_fake/adapter.py:63-67 | flag and new contents are those of the pure operation |
| `OvsAdapter.FakeOvsdb.EnsurePort` | src/netos_agent/adapters/ovsdb_fake/adapter.py:69-100 | flag and new contents are those of the pure operation; a missing bridge changes nothing |
| `OvsAdapter.FakeOvsdb.DeletePort` | src/netos_agent/adapters/ovsdb_fake/adapter.py:102-105 | flag and new contents are those of the pure operation; a missing bridge changes nothing |
| `OvsAdapter.FakeOvsdb.EnsureVxlanPort` | src/netos_agent/adapters/ovsdb_fake/adapter.py:107-136 | a port of type vxlan with the derived options |
| `OvsAdapter.FakeOvsdb.GetState` | src/netos_agent/adapters/ovsdb_fake/adapter.py:33-35 | renders every bridge, port and interface once |
| `OvsAdapter.FakeOvsdb.Dump` | src/netos_agent/adapters/ovsdb_fake/adapter.py:140-145 | renders the whole store as values that share nothing with it |
| `OvsAdapter.FakeOvsdb.Restore` | src/netos_agent/adapters/ovsdb_fake/adapter.py:147-150 | version and contents become what the payload says, in fresh objects; fails exactly when the payload lacks a name, with only the version changed |
| `EdgeServices.Put` | src/netos_agent/adapters/dns_fake/adapter.py:23-29 | storing under an id: changed exactly when the map differs, other ids untouched |
| `EdgeServices.Pop` | src/netos_agent/adapters/dns_fake/adapter.py:31-33 | removing an id: changed exactly when the map differs, other ids untouched |
| `EdgeServices.FakeDns.ResolveCheck` | src/netos_agent/adapters/dns_fake/adapter.py:39-48 | the first address record carrying the name |
| `EdgeServices.FirstAddressIff` | src/netos_agent/adapters/dns_fake/adapter.py:39-48 | a lookup answers a value if and only if an address record of the name has it and no earlier record of the name is one |
| `EdgeServices.FakeDhcp.Apply` | src/netos_agent/adapters/dhcp_fake/adapter.py:27-33 | the scope map after storing, and its flag |
| `EdgeServices.FakeFirewall.ApplyPolicy` | src/netos_agent/adapters/firewall_fake/adapter.py:30-36 | the policy map after storing, and its flag; NAT untouched |
| `EdgeServices.FakeFirewall.ApplyNat` | src/netos_agent/adapters/firewall_fake/adapter.py:51-57 | the NAT map after storing, and its flag; policies untouched |
| `PlanMachine.ChangedIsExact` | src/netos_agent/core/use_cases/apply_plan.py:64-89 | on every well-formed store each of the 13 steps reports a change exactly when the store differs; a failing step changes nothing and its bridge is missing |
| `PlanMachine.ExecKeepsWf` | src/netos_agent/core/use_cases/apply_plan.py:61-89 | every plan keeps key-equals-name |
| `Reapply.CellStep` | src/netos_agent/core/use_cases/apply_plan.py:91-148 | each of the 13 steps acts on every bridge and port by itself |
| `Reapply.CellStableIff` | src/netos_agent/core/use_cases/apply_plan.py:61-148 | one port settles after the first application if and only if it is no orphan |
| `Reapply.StableIff` | src/netos_agent/core/use_cases/apply_plan.py:61-148 | from any store, applying any steps again ends in the same store if and only if no port is an orphan, a condition on the starting store and the steps alone |
| `Reapply.OkIff` | src/netos_agent/core/use_cases/apply_plan.py:64-89 | a run is ok if and only if every port step finds its bridge, by the steps before it |
| `Reapply.EntryIsTrue` | src/netos_agent/core/use_cases/apply_plan.py:64-88 | each entry of a plan's result names its step, is ok if and only if the step found its bridge, reports a change if and only if the stores before and after the step differ, and says applied, noop or which bridge is missing accordingly |
| `Reapply.AnswerIsTrue` | src/netos_agent/core/use_cases/apply_plan.py:61-89 | the answer carries the plan's id and one entry a step, and is ok if and only if every step found its bridge |
| `Reapply.PlainPortHolds` | src/netos_agent/core/use_cases/apply_plan.py:102-111 | an ensured port holds one interface with the type and options asked for, its trunks in order, the rest as asked |
| `Reapply.VxlanPortHolds` | src/netos_agent/core/use_cases/apply_plan.py:114-124 | an ensured tunnel is one untagged vxlan interface whose options name key, both ends, port and MTU and nothing else |
| `Reapply.EdgeStepStores` | src/netos_agent/core/use_cases/apply_plan.py:126-148 | a step on DHCP, DNS, NAT or firewall writes or removes its one entry of its one store and touches nothing else |
| `Reapply.ReapplyIsStable` | src/netos_agent/core/use_cases/apply_plan.py:61-148 | so an ok plan of any steps, from any store, applied again ends in the same store |
| `Reapply.SecondRunOkIff` | src/netos_agent/core/use_cases/apply_plan.py:61-148 | an ok plan is ok the second time if and only if no port step stands before every step on a bridge that the plan finally deletes |
| `Reapply.FailedPlanNeedNotBeStable` | src/netos_agent/core/use_cases/apply_plan.py:78-80 | a failed plan, here a port before its bridge, does more when applied again |
| `Reapply.SecondRunMayFail` | src/netos_agent/core/use_cases/apply_plan.py:67-80 | an ok plan may fail when applied again |
| `PlanMachine.GoalsPersist` | src/netos_agent/core/use_cases/apply_plan.py:91-148 | an ensure step establishes its goal, and one on another target leaves it standing |
| `PlanMachine.AllHold` | src/netos_agent/core/use_cases/apply_plan.py:61-89 | after an ok plan of ensure steps on distinct targets all goals hold |
| `PlanMachine.HeldPlanIsNoop` | src/netos_agent/core/use_cases/apply_plan.py:81-88 | a plan whose goals all hold is ok, reports no change and changes nothing |
| `PlanMachine.EnsurePlanIsIdempotent` | src/netos_agent/core/use_cases/apply_plan.py:61-148 | such a plan re-applies with every step ok and unchanged |
| `ApplyPlan.ApplyPlan.ApplyStep` | src/netos_agent/core/use_cases/apply_plan.py:91-148 | the dispatch over live adapters is the pure step: same flag or error, same stores |
| `ApplyPlan.ApplyPlan.Execute` | src/netos_agent/core/use_cases/apply_plan.py:61-89 | the loop returns the per-step results and the overall flag of the pure run and leaves its stores |
| `ApplyPlan.Snapshots.Snapshot` | src/netos_agent/core/use_cases/snapshots.py:32-43 | stores a dump and the hash of the store, where no plan comes between the source's two separate reads of it |
| `ApplyPlan.Snapshots.Restore` | src/netos_agent/core/use_cases/snapshots.py:56-61 | the store becomes what the saved payload says; an unknown id changes nothing |
| `ApplyPlan.Rollback` | src/netos_agent/core/use_cases/snapshots.py:32-61 | snapshot, any plans, restore: OVS contents, version and hash are those of the snapshot, edge services keep what the plans left |
| `ApplyPlan.RestoreAndRead` | src/netos_agent/core/use_cases/snapshots.py:56-61 | a restored dump reads with the hash of the store it was taken of |
| `ApplyPlan.HashUnique` | src/netos_agent/core/use_cases/snapshots.py:32-43 | a store has one hash |
| `AgentNode.SamePortIsPortsEqual` | src/sdn_controller/adapters/netos_agent/fake.py:328-361 | the flat port comparison agrees with the agent's and is equality |
| `AgentNode.SimulatesEnsurePort` | src/sdn_controller/adapters/netos_agent/fake.py:328-361 | ensuring a flat port is ensuring the port with one interface, with the same flag or error |
| `AgentNode.StepSimulates` | src/sdn_controller/adapters/netos_agent/fake.py:224-301 | each of the 13 steps is the agent's step, with the same flag or the same error, and keeps key-equals-name |
| `AgentNode.StepsSimulate` | src/sdn_controller/adapters/netos_agent/fake.py:137-165 | the same over sequences of steps |
| `AgentNode.RunSimulates` | src/sdn_controller/adapters/netos_agent/fake.py:137-165 | from related states every plan gives the same result list, the same overall flag and related end states |
| `AgentNode.LoadDump` | src/sdn_controller/adapters/netos_agent/fake.py:376-428 | what loading a dump yields, for any dictionary order |
| `AgentNode.RestoreIsExactIff` | src/sdn_controller/adapters/netos_agent/fake.py:376-428 | it is the dumped node if and only if that had no edge services and no empty type |
| `AgentNode.RestoresAgreeIff` | src/sdn_controller/adapters/netos_agent/fake.py:189-200 | after a restore the two agents are still related if and only if no edge service was left and no snapshotted type was empty |
| `AgentNode.LoadedIsWf` | src/sdn_controller/adapters/netos_agent/fake.py:380-386 | whatever is loaded, keys equal names |
| `FakeAgent.NodeState.EnsureBridge` | src/sdn_controller/adapters/netos_agent/fake.py:304-325 | the node's new value and the flag are those of the pure operation |
| `FakeAgent.NodeState.EnsurePort` | src/sdn_controller/adapters/netos_agent/fake.py:328-361 | the node's new value and the flag are those of the pure operation |
| `FakeAgent.NodeState.ApplyStep` | src/sdn_controller/adapters/netos_agent/fake.py:224-301 | the in-place dispatch is the pure step |
| `FakeAgent.NodeState.ApplySteps` | src/sdn_controller/adapters/netos_agent/fake.py:140-165 | the loop is the pure run |
| `FakeAgent.FakeAgent.ApplyPlan` | src/sdn_controller/adapters/netos_agent/fake.py:137-165 | runs the plan on one node and leaves every other node and its objects as they were |
| `FakeAgent.FakeAgent.Snapshot` | src/sdn_controller/adapters/netos_agent/fake.py:167-187 | stores a dump of the node under an id never used before |
| `FakeAgent.FakeAgent.Restore` | src/sdn_controller/adapters/netos_agent/fake.py:189-200 | loads the payload of this node's snapshot; an unknown id, or one of another node, changes nothing |
| `FakeAgent.SnapIdInjective` | src/sdn_controller/adapters/netos_agent/fake.py:170-171 | snapshot numbers never share an id |
| `RateLimit.TokenBucketLimiter.Acquire` | src/sdn_controller/adapters/http_api/rate_limit.py:71-85 | answer and new levels are those of the pure call; buckets stay unshared |
| `RateLimit.KeysAreIndependent` | src/sdn_controller/adapters/http_api/rate_limit.py:71-85 | a principal gets the answers it would get alone, whatever the others do |
| `RateLimit.LevelIsLeastRoom` | src/sdn_controller/adapters/http_api/rate_limit.py:77-80 | the level at a call is the least room left by any window ending there |
| `RateLimit.GreedyExactly` | src/sdn_controller/adapters/http_api/rate_limit.py:77-85 | on any clock, a call is granted if and only if every window ending with it still fits what was earned |
| `RateLimit.EarnedIsRateTimesElapsed` | src/sdn_controller/adapters/http_api/rate_limit.py:78-79 | on a clock that never steps back, earned is rate times elapsed |
| `RateLimit.GrantedIffEveryWindowFits` | src/sdn_controller/adapters/http_api/rate_limit.py:71-85 | on a clock that never steps back: granted if and only if for each earlier-or-equal call k, grants since k plus one is at most capacity + rate * (t_n - t_k) |
| `RateLimit.WindowBound` | src/sdn_controller/adapters/http_api/rate_limit.py:71-85 | every window admits at most the capacity and what was earned |
| `RateLimit.EveryWindowIsBounded` | src/sdn_controller/adapters/http_api/rate_limit.py:71-85 | every window of a principal whose own clock readings never step back, in any mixed run, admits at most capacity + rate * length |
| `RateLimit.TimesMonotone` | src/sdn_controller/adapters/http_api/rate_limit.py:71-72 | one clock that never steps back is such a clock for every principal |
| `RateLimit.ExactIffSteady` | src/sdn_controller/adapters/http_api/rate_limit.py:71-85 | the greedy law by capacity + rate * length holds for all capacities and rates if and only if the clock never steps back |
| `RateLimit.BoundedIffSteady` | src/sdn_controller/adapters/http_api/rate_limit.py:71-85 | so does the bound on every window |
| `Locks.InMemoryLockStore.TryLock` | src/sdn_controller/adapters/locks.py:34-42 | answer and new dictionary are those of the pure section |
| `Locks.InMemoryLockStore.Release` | src/sdn_controller/adapters/locks.py:44-51 | removes the entry only for its owner |
| `Locks.InMemoryLockStore.CurrentOwner` | src/sdn_controller/adapters/locks.py:53-59 | the owner of a lease that has not expired |
| `Locks.SqlLockStore.TryLock` | src/sdn_controller/adapters/locks.py:71-98 | delete-expired, insert, rollback on conflict, re-read: answer and new table |
| `Locks.SqlLockStore.Release` | src/sdn_controller/adapters/locks.py:100-108 | deletes the row only for its owner |
| `Locks.SqlLockStore.CurrentOwner` | src/sdn_controller/adapters/locks.py:110-121 | the owner of a row that has not expired |
| `Locks.SqlTryLockIsTryLock` | src/sdn_controller/adapters/locks.py:71-98 | a whole table-backed attempt is the in-memory attempt |
| `Locks.SqlRefinesMemory` | src/sdn_controller/adapters/locks.py:62-121 | every call history gets the same answers from both stores and leaves the table equal to the dictionary |
| `Locks.TransactionIsASection` | src/sdn_controller/adapters/locks.py:74-94 | the transaction alone has the section's effect, and succeeds exactly when no live lease was there |
| `Locks.LeaseStands` | src/sdn_controller/adapters/locks.py:34-51 | an installed lease stays, unchanged, until its owner's release or its expiry, whatever stale clock readings, stale releases and re-reads are interleaved |
| `Locks.NoOtherSucceeds` | src/sdn_controller/adapters/locks.py:34-51 | until then no other owner is told that it holds the lock |
| `Locks.MutualExclusion` | src/sdn_controller/adapters/locks.py:34-59 | at any moment of any interleaving at most one owner holds a key |
| `Locks.RowHasInstaller` | src/sdn_controller/adapters/locks.py:34-51 | every row was installed by its owner, who has not released it since |
| `Locks.HoldsIff` | src/sdn_controller/adapters/locks.py:53-59 | an owner holds a key, by the history of installs and releases, if and only if the table has its unexpired row |
| `Locks.OwnerIsHolder` | src/sdn_controller/adapters/locks.py:53-59 | the owner reported is the holder by the history of installs and releases |
| `Locks.OwnerAt` | src/sdn_controller/adapters/locks.py:53-59 | at any time nobody is reported exactly when there is no row or it has expired |
| `Locks.TrueMeansHeldIff` | src/sdn_controller/adapters/locks.py:71-98 | a caller told true holds the lock if and only if the row it found, or else the lease it installs, has not expired at that moment |
| `Locks.RereadMayBeLate` | src/sdn_controller/adapters/locks.py:93-98 | the re-read answers true to the recorded owner even after the lease has expired |
| `Locks.FullTtlIff` | src/sdn_controller/adapters/locks.py:34-42 | a successful attempt leaves the full ttl if and only if there was no live lease or it already ran that long |
| `Fnv.KeyToBigint` | src/sdn_controller/adapters/sql/pg_advisory_locks.py:38-50 | the loop computes the hash; the result lies in [-2^63, 2^63) and is congruent to it modulo 2^64 |
| `Fnv.PrimeIsInvertible` | src/sdn_controller/adapters/sql/pg_advisory_locks.py:38-50 | multiplying by the FNV prime modulo 2^64 is undone by its inverse |
| `Fnv.StepInjective` | src/sdn_controller/adapters/sql/pg_advisory_locks.py:38-50 | one step is injective in the state and in the byte |
| `Fnv.SuffixInjective` | src/sdn_controller/adapters/sql/pg_advisory_locks.py:38-50 | different states stay different over a common suffix |
| `Fnv.OneByteNeverCollides` | src/sdn_controller/adapters/sql/pg_advisory_locks.py:38-50 | keys of one length that differ in exactly one byte get different lock numbers |
| `Fnv.SignedIsCongruent` | src/sdn_controller/adapters/sql/pg_advisory_locks.py:48-50 | the signed reading is the one number in [-2^63, 2^63) congruent to the hash |
| `Fnv.KnownHashes` | src/sdn_controller/adapters/sql/pg_advisory_locks.py:33-50 | the published FNV-1a values of the empty key and of `a` |
| `Outbox.InMemoryOutboxRepository.Append` | src/sdn_controller/adapters/memory/repositories.py:482-498 | the log after an append, numbered head + 1 |
| `Outbox.InMemoryOutboxRepository.ListSince` | src/sdn_controller/adapters/memory/repositories.py:505-509 | the first `limit` of all stored events past the cursor, in event-id order |
| `Outbox.InMemoryOutboxRepository.MarkDelivered` | src/sdn_controller/adapters/memory/repositories.py:517-534 | marks the named undelivered events in order |
| `Outbox.InMemoryOutboxRepository.HeadEventId` | src/sdn_controller/adapters/memory/repositories.py:536-538 | the last number handed out |
| `Outbox.InMemoryOutboxRepository.DeleteDeliveredBefore` | src/sdn_controller/adapters/memory/repositories.py:540-549 | removes exactly the expired events and counts them |
| `Outbox.MarkOnlyMarks` | src/sdn_controller/adapters/memory/repositories.py:517-534 | marking touches only `delivered_at`, only of named undelivered events |
| `Outbox.OperationsKeepValid` | src/sdn_controller/adapters/memory/repositories.py:482-549 | event ids stay unique and at most the head |
| `Outbox.AppendKeepsAllIffFresh` | src/sdn_controller/adapters/memory/repositories.py:482-498 | an append keeps every earlier event if and only if its id is fresh |
| `Outbox.ReaderIsExactlyOnce` | src/sdn_controller/adapters/memory/repositories.py:505-509 | over every interleaving of appends, marks and deletes a paging reader receives events once each, in increasing order, and every one still stored at or below its cursor |
| `Outbox.LogIsWhatWasAppended` | src/sdn_controller/adapters/memory/repositories.py:482-498 | over every run the m-th event of the log has the id, body and delivery time of the m-th append, and number m |
| `Outbox.EventsAreAppended` | src/sdn_controller/adapters/memory/repositories.py:482-509 | so every event stored or received has the id and body of the append its number says |
| `Outbox.DeletesExactlyOld` | src/sdn_controller/adapters/memory/repositories.py:540-549 | a retention delete takes exactly the events delivered before the cutoff |
| `Outbox.SliceTakes` | src/sdn_controller/adapters/memory/repositories.py:509-509 | a limit takes that many from the front, a negative one leaves that many off the end |
| `Outbox.MissedIff` | src/sdn_controller/adapters/memory/repositories.py:482-549 | over every interleaving, an event at or below the cursor was not received if and only if a retention delete took it while its number was still past the cursor |
| `Outbox.GoneIff` | src/sdn_controller/adapters/memory/repositories.py:482-549 | an appended event is neither stored nor received if and only if such a delete took it |
| `Outbox.DisciplinedReaderMissesNothing` | src/sdn_controller/adapters/memory/repositories.py:505-549 | if only events at or below the cursor are marked, the reader has received exactly the appended log up to its cursor |
| `Outbox.ReadMissesNothing` | src/sdn_controller/adapters/memory/repositories.py:505-509 | one page keeps that |
| `Outbox.ReadAdvances` | src/sdn_controller/adapters/memory/repositories.py:505-509 | a page moves the cursor by `limit` or to the head |
| `DnsZone.MatchesItsLine` | src/netos_agent/adapters/dns_coredns/adapter.py:218-221 | the record expression reads a printed record back wherever it stands |
| `DnsZone.SkipHead` | src/netos_agent/adapters/dns_coredns/adapter.py:190-202 | no line of a rendered zone's head is mistaken for a record |
| `DnsZone.RenderedText` | src/netos_agent/adapters/dns_coredns/adapter.py:190-202 | the rendered text is the head followed by one line per record |
| `CorednsDns.Render` | src/netos_agent/adapters/dns_coredns/adapter.py:190-202 | the loop writes the zone's text |
| `CorednsDns.Parse` | src/netos_agent/adapters/dns_coredns/adapter.py:225-251 | header search, record matching and value checks: the zone read, not ours, or refused |
| `CorednsDns.RoundTrip` | src/netos_agent/adapters/dns_coredns/adapter.py:190-251 | a valid plain zone whose SOA address stays on its line reads back with its name and its records in order; only the SOA address is replaced by the default |
| `CorednsDns.ParsedIsPlain` | src/netos_agent/adapters/dns_coredns/adapter.py:218-251 | whatever a file says, what is read from it is plain |
| `CorednsDns.RoundTripIff` | src/netos_agent/adapters/dns_coredns/adapter.py:190-251 | so a valid zone whose SOA address stays on its line survives if and only if it is plain: no space in name, record names and values, no empty value, no negative ttl |
| `CorednsDns.RefusedFileRaises` | src/netos_agent/adapters/dns_coredns/adapter.py:225-251 | a file with a record or zone name that the value objects refuse is not read even in part: the refusal is not caught and a lookup raises |
| `CorednsDns.RenderIsInjective` | src/netos_agent/adapters/dns_coredns/adapter.py:190-202 | valid plain zones whose SOA address stays on its line are written differently when they differ |
| `CorednsDns.SameFileIff` | src/netos_agent/adapters/dns_coredns/adapter.py:185-187 | two names share a file exactly when they agree up to trailing dots |
| `CorednsDns.FileIsNamedAfter` | src/netos_agent/adapters/dns_coredns/adapter.py:185-187 | a file is `db.` and the zone's name without the dots at its end |
| `DnsZone.OriginIsAbsolute` | src/netos_agent/adapters/dns_coredns/adapter.py:190-195 | the origin a file declares is the name, with one dot added if it has none at its end |
| `CorednsDns.CorednsDns.Apply` | src/netos_agent/adapters/dns_coredns/adapter.py:70-80 | the directory after writing, changed exactly when the text differs |
| `CorednsDns.CorednsDns.Delete` | src/netos_agent/adapters/dns_coredns/adapter.py:82-89 | the directory without the file, changed exactly when it was there |
| `CorednsDns.CorednsDns.ListZones` | src/netos_agent/adapters/dns_coredns/adapter.py:91-99 | reads every file in the order of names |
| `CorednsDns.CorednsDns.ResolveCheck` | src/netos_agent/adapters/dns_coredns/adapter.py:101-109 | the first address record of the parsed file, or the refusal |
| `DnsAgreement.PrintableIsFaithful` | src/netos_agent/adapters/dns_coredns/adapter.py:190-251 | valid plain zones whose SOA address stays on its line, on names that share no file, meet all three conditions of `DnsAgreement.AgreementIff`; which other tidy zones do is `DnsTidy.FaithfulIff` |
| `DnsAgreement.RunsAgree` | src/netos_agent/adapters/dns_coredns/adapter.py:70-109 | over any sequence of calls that applies zones meeting the three conditions, `changed` flags and lookups equal the dictionary store's |
| `DnsAgreement.ListingAgrees` | src/netos_agent/adapters/dns_coredns/adapter.py:91-99 | after such a run, if the zones also read back as themselves but for the SOA address, a listing gives exactly the dictionary's zones, each once, in file order |
| `DnsAgreement.ListingAgreesIff` | src/netos_agent/adapters/dns_coredns/adapter.py:91-99 | listings agree on all such runs if and only if every zone reads back |
| `DnsAgreement.NoTrailingDotSeparable` | src/netos_agent/adapters/dns_coredns/adapter.py:185-187 | names without a trailing dot share no file |
| `DnsAgreement.SharedFileDisagrees` | src/netos_agent/adapters/dns_coredns/adapter.py:82-89 | two names with one file: apply one, delete the other, and the answers differ |
| `DnsAgreement.SpacedNameIsLost` | src/netos_agent/adapters/dns_coredns/adapter.py:218-221 | an address record whose name contains a space is found in the dictionary and never in the file |
| `DnsAgreement.SpacedNameDisagrees` | src/netos_agent/adapters/dns_coredns/adapter.py:101-109 | a valid zone with the record name `a b`: one application and one lookup answer differently |
| `DnsAgreement.NestedSameText` | src/netos_agent/adapters/dns_coredns/adapter.py:190-202 | an alias whose value ends in a line end and another record's line is written as the two records are |
| `DnsAgreement.AliasValueIsNotOneRecord` | src/netos_agent/core/value_objects/edge_services.py:96-105 | both zones are valid, so rendering is not injective on valid zones, and the file resolves a name the zone does not have |
| `DnsAgreement.AgreementIff` | src/netos_agent/adapters/dns_coredns/adapter.py:70-109 | the reduction from runs to single zones, for any way of writing and reading: the stores agree on all runs over some names and zones if and only if no zone shares its file with another name, each zone's text answers lookups as its records do, and no two zones of one name have one text |
| `DnsTidy.MatchTakesFive` | src/netos_agent/adapters/dns_coredns/adapter.py:218-221 | whatever the record expression matches is five words, ending at a line end |
| `DnsTidy.LongLineMatchesNothing` | src/netos_agent/adapters/dns_coredns/adapter.py:218-221 | so a line of more words matches nothing, not even across its end |
| `DnsTidy.HeaderFillsItsLine` | src/netos_agent/adapters/dns_coredns/adapter.py:222-222 | a header whose name has white space inside is no header |
| `DnsTidy.LineIsReadIff` | src/netos_agent/adapters/dns_coredns/adapter.py:200-201 | the line of a record with a one-word value is read if and only if its name is one word, perhaps with spaces behind it, and its ttl is not negative |
| `DnsTidy.TidyReadsAs` | src/netos_agent/adapters/dns_coredns/adapter.py:190-251 | a tidy zone reads back with its name and exactly those records, names trimmed, in order |
| `DnsTidy.ReadsTrueIff` | src/netos_agent/adapters/dns_coredns/adapter.py:101-109 | a tidy zone's file answers every lookup as its records do if and only if no address record's name has a space and dropping negative ttls changes no first address |
| `DnsTidy.AddressesReadIff` | src/netos_agent/adapters/dns_coredns/adapter.py:101-109 | without negative ttls that is: no address record's name has a space |
| `DnsTidy.LineInjective` | src/netos_agent/adapters/dns_coredns/adapter.py:200-201 | a line determines its record |
| `DnsTidy.TidyIsInjective` | src/netos_agent/adapters/dns_coredns/adapter.py:190-202 | different tidy zones are written differently |
| `DnsTidy.FaithfulIff` | src/netos_agent/adapters/dns_coredns/adapter.py:70-109 | tidy zones meet the three conditions if and only if none shares its file and their address records are read |
| `DnsTidy.FilesAgreeIff` | src/netos_agent/adapters/dns_coredns/adapter.py:70-109 | over tidy zones the real reader and writer give the dictionary store's answers on all runs if and only if no zone shares its file with another name and every zone's address records are read |
| `DnsTidy.FilesListIff` | src/netos_agent/adapters/dns_coredns/adapter.py:70-109 | and its listings too if and only if every record of every zone is plain |
| `DnsTidy.NegativeTtlIsLost` | src/netos_agent/core/value_objects/edge_services.py:87-105 | an address record of negative ttl is valid and, alone under its name, never found |
| `DnsTidy.OneLineTwoZones` | src/netos_agent/core/value_objects/edge_services.py:87-105 | two valid zones of one record, an alias and an address, have one text without any line end in a field |
| `DnsTidy.SoaMayCarryARecord` | src/netos_agent/core/value_objects/edge_services.py:108-124 | a valid plain zone without records whose SOA address runs over a line end reads back with a record |
| `Nftables.RenderRule` | src/netos_agent/adapters/firewall_nftables/adapter.py:253-267 | the appended expressions are the rule's statement |
| `Nftables.RuleKeepsMeaning` | src/netos_agent/adapters/firewall_nftables/adapter.py:253-267 | for every valid rule the statement gives the action exactly on the packets the rule matches |
| `Nftables.RuleCountsMatches` | src/netos_agent/adapters/firewall_nftables/adapter.py:253-267 | a rule's counter counts exactly the packets the rule matches, once |
| `Nftables.ChainCountsAll` | src/netos_agent/adapters/firewall_nftables/adapter.py:185-188 | a policy's chain first counts every packet |
| `Nftables.RulesKeepMeaning` | src/netos_agent/adapters/firewall_nftables/adapter.py:183-194 | a list of rules gives the first matching action, else the default |
| `Nftables.ChainKeepsMeaning` | src/netos_agent/adapters/firewall_nftables/adapter.py:183-194 | the rendered chain gives the policy's verdict on every packet, whatever is appended to it |
| `Nftables.NamedChainKeepsMeaning` | src/netos_agent/adapters/firewall_nftables/adapter.py:183-194 | the chain of a name means the first policy written under it, shared names included |
| `Nftables.OnlyTheFirstPolicyDecides` | src/netos_agent/adapters/firewall_nftables/adapter.py:195-204 | the forward hook gives the first policy's verdict and never consults another |
| `Nftables.SecondPolicyIsIgnored` | src/netos_agent/adapters/firewall_nftables/adapter.py:195-204 | an accept-all policy stored first silences a drop-all policy stored after it, and the other way round |
| `Nftables.EndPortAloneIsDropped` | src/netos_agent/core/value_objects/edge_services.py:199-207 | without the validity check a rule with a last port alone would match every packet |
| `Nftables.NftablesFirewall.Render` | src/netos_agent/adapters/firewall_nftables/adapter.py:166-217 | the nested loops build the script of the stored policies, with the extra one in its place |
| `Nftables.NftablesFirewall.ValidatePolicy` | src/netos_agent/adapters/firewall_nftables/adapter.py:67-68 | the script that is checked is the one applying the policy would render |
| `Nftables.NftablesFirewall.ApplyPolicy` | src/netos_agent/adapters/firewall_nftables/adapter.py:70-77 | dictionary, kernel script and answer afterwards, also when `nft` refuses |
| `Nftables.NftablesFirewall.DeletePolicy` | src/netos_agent/adapters/firewall_nftables/adapter.py:79-85 | dictionary, kernel script and answer afterwards, also when `nft` refuses |
| `Nftables.SetLooksUp` | src/netos_agent/adapters/firewall_nftables/adapter.py:75-75 | the ordered dictionary looks up what was last written |
| `Nftables.RemoveLooksUp` | src/netos_agent/adapters/firewall_nftables/adapter.py:83-83 | and loses exactly what was removed |
| `Nftables.DictionaryStaysKeyed` | src/netos_agent/adapters/firewall_nftables/adapter.py:70-85 | it keeps one entry per id |
| `Nftables.ApplyStores` | src/netos_agent/adapters/firewall_nftables/adapter.py:70-77 | an apply answers false exactly when the policy is stored already, else what `nft` says; either way the id then finds the policy and the others what they found |
| `Nftables.DeleteRemoves` | src/netos_agent/adapters/firewall_nftables/adapter.py:79-85 | a delete answers false exactly when nothing is stored, else what `nft` says; either way the id then finds nothing and the others what they found |
| `Nftables.RunsLeave` | src/netos_agent/adapters/firewall_nftables/adapter.py:70-85 | over any run the dictionary finds at each id what the last call on that id left |
| `Nftables.SetKeepsOrder` | src/netos_agent/adapters/firewall_nftables/adapter.py:75-75 | writing keeps the order of ids, a new one comes last |
| `Nftables.RemoveKeepsOthers` | src/netos_agent/adapters/firewall_nftables/adapter.py:83-83 | deleting leaves the policies of other ids in their order |
| `Nftables.AcceptedApplyDecides` | src/netos_agent/adapters/firewall_nftables/adapter.py:70-77 | after an accepted apply the kernel gives the new policy's verdict if that is the first, else the first stored one's |
| `Nftables.AcceptedDeleteDecides` | src/netos_agent/adapters/firewall_nftables/adapter.py:79-85 | after an accepted delete the kernel gives the verdict of the first remaining policy, and accepts when none remains |
| `Nftables.ChainNamesApart` | src/netos_agent/adapters/firewall_nftables/adapter.py:248-250 | ids of alphanumeric characters keep them in their chain names and never share a chain |
| `Nftables.ValidRuleIff` | src/netos_agent/core/value_objects/edge_services.py:183-207 | which ports a rule may carry, in plain numbers |
| `Nftables.MatchesIff` | src/netos_agent/adapters/firewall_nftables/adapter.py:253-267 | which packets a valid rule matches, in plain terms |
| `Nftables.ApplySyncIff` | src/netos_agent/adapters/firewall_nftables/adapter.py:70-77 | an apply keeps kernel and dictionaries in step if and only if `nft` accepts or the policy stored under the id already has the same default action and rules as written |
| `Nftables.DeleteSyncIff` | src/netos_agent/adapters/firewall_nftables/adapter.py:79-85 | a delete does if and only if `nft` accepts or there is nothing to delete |
| `Nftables.KernelIsLastLoad` | src/netos_agent/adapters/firewall_nftables/adapter.py:70-85 | after any applies and deletes, whatever `nft` answers, the kernel runs the script of the policies as they stood after the last call that answered true |
| `Nftables.RunSyncIff` | src/netos_agent/adapters/firewall_nftables/adapter.py:70-85 | so after a run they are in step if and only if the policies stored now have, in order, the chain names and chains of those stored after that call |
| `Nftables.AcceptedRunsStayInSync` | src/netos_agent/adapters/firewall_nftables/adapter.py:70-85 | a run in which `nft` refuses nothing stays in step |
| `Nftables.RetryAfterFailureIsNoop` | src/netos_agent/adapters/firewall_nftables/adapter.py:70-77 | repeating a refused apply reports no change and leaves the kernel as it was |
| `Nftables.RetryAfterFailedDeleteIsNoop` | src/netos_agent/adapters/firewall_nftables/adapter.py:79-85 | repeating a refused delete reports no change and leaves the rules in the kernel |
| `OvsTables.Parse` | src/netos_agent/adapters/ovsdb_subprocess/adapter.py:254-298 | the loops compute the decoding, row by row |
| `OvsTables.InterfaceTableBack` | src/netos_agent/adapters/ovsdb_subprocess/adapter.py:263-270 | the interface dictionary is lookup by uuid, empty types read as internal |
| `OvsTables.PortTableBack` | src/netos_agent/adapters/ovsdb_subprocess/adapter.py:271-284 | the port dictionary is lookup by uuid with references followed in order |
| `OvsTables.BridgeListBack` | src/netos_agent/adapters/ovsdb_subprocess/adapter.py:286-298 | the bridge list is in row order with references followed in order |
| `OvsTables.DecodesToTheTree` | src/netos_agent/adapters/ovsdb_subprocess/adapter.py:254-325 | for every database and every way of writing its sets, decoding gives the tree of naive lookups, dangling references dropped, over the ports as their tag columns are understood |
| `OvsTables.DecodesExactlyIff` | src/netos_agent/adapters/ovsdb_subprocess/adapter.py:254-325 | it is the database's own tree if and only if no referenced port has its tag written as a tagged one-element set |
| `SecurityPolicy.RulesAreSortedInsertions` | src/sdn_controller/core/entities/security_policy.py:136-152 | after any calls the rules are the surviving insertions, stably sorted by priority |
| `SecurityPolicy.FilterSort` | src/sdn_controller/core/entities/security_policy.py:144-152 | removing rules and sorting them commute |
| `SecurityPolicy.AlwaysSorted` | src/sdn_controller/core/entities/security_policy.py:136-152 | always in priority order, none lost, rules of one priority in the order they were added |
| `SecurityPolicy.InsertionOrderIrrelevant` | src/sdn_controller/core/entities/security_policy.py:136-142 | histories that keep the same rules, no two of one priority, hold the same tuple |
| `SecurityPolicy.ArtefactIsFresh` | src/sdn_controller/core/entities/security_policy.py:136-190 | compiled or applied means a ruleset is stored; a stored ruleset is that of the last `mark_compiled`, made from exactly the rules held now; a draft stores none |
| `SecurityPolicy.AppliesIffCompilationStands` | src/sdn_controller/core/entities/security_policy.py:154-170 | `mark_applied` succeeds if and only if some `mark_compiled` has been followed only by counter and metadata updates and refused calls |
| `SecurityPolicy.FailureNeedsRecompilation` | src/sdn_controller/core/entities/security_policy.py:161-175 | a failed policy keeps its artefact but cannot be applied before it is compiled again |
| `SecurityPolicy.UpdateKeepsCompilation` | src/sdn_controller/core/entities/security_policy.py:192-212 | an update of metadata leaves status, artefact and rules: a draft stays a draft, and a renamed compiled policy can still be applied |
| `SecurityPolicy.StatusIsLastWord` | src/sdn_controller/core/entities/security_policy.py:136-175 | over any run the status is what the last accepted call that concerns it says; a failure fails a policy whatever it was |
| `SecurityPolicy.TimestampsAreLastCalls` | src/sdn_controller/core/entities/security_policy.py:136-212 | each timestamp is the time of the last accepted call it is about |
| `SecurityPolicy.UpdateWrites` | src/sdn_controller/core/entities/security_policy.py:192-212 | an update changes exactly the metadata it is given |
| `SecurityPolicy.RefusedIff` | src/sdn_controller/core/entities/security_policy.py:144-190 | a call is refused exactly when it names a rule that is not there or applies what is not compiled, and then changes nothing |
| `SecurityPolicy.SecurityPolicy.AddRule` | src/sdn_controller/core/entities/security_policy.py:136-142 | the new state; the rule objects are the old ones and the new one |
| `SecurityPolicy.SecurityPolicy.RemoveRule` | src/sdn_controller/core/entities/security_policy.py:144-152 | the new state, or a refusal that changes nothing when no rule has the id |
| `SecurityPolicy.SecurityPolicy.MarkCompiled` | src/sdn_controller/core/entities/security_policy.py:154-159 | the new state; rules untouched |
| `SecurityPolicy.SecurityPolicy.MarkApplied` | src/sdn_controller/core/entities/security_policy.py:161-170 | the new state, or a refusal that changes nothing unless compiled |
| `SecurityPolicy.SecurityPolicy.MarkFailed` | src/sdn_controller/core/entities/security_policy.py:172-175 | the new state; artefact and rules untouched |
| `SecurityPolicy.SecurityPolicy.UpdateCounters` | src/sdn_controller/core/entities/security_policy.py:177-190 | writes the counters of the first rule of the id and nothing else; refused when there is none |
| `SecurityPolicy.SecurityPolicy.Update` | src/sdn_controller/core/entities/security_policy.py:192-212 | the new metadata; status and artefact untouched; the timestamp moves only on a change |
| `Operation.HistoryIsAPath` | src/sdn_controller/core/entities/operation.py:98-197 | every history is numbered 1..n, ends in the current status and time, and collapses to a path of the transition table |
| `Operation.GrantedIff` | src/sdn_controller/core/entities/operation.py:56-156 | a transition is granted if and only if the operation is under way and goes one stage on, fails, is cancelled before it verifies, or is rolled back once it runs, and an error comes only with a failure or rollback; which refusal is given, likewise |
| `Operation.HistoryTells` | src/sdn_controller/core/entities/operation.py:98-197 | the history is the acceptance and one event for each call not refused, with that call's time, message and payload |
| `Operation.PathsAreForced` | src/sdn_controller/core/entities/operation.py:56-79 | a path has at most four changes, and its last status, when not terminal or succeeded, spells out the whole path |
| `Operation.HistoriesAreShort` | src/sdn_controller/core/entities/operation.py:56-197 | at most four status changes; a succeeded history is accepted, planning, running, verifying, succeeded |
| `Operation.CollapseIsGranted` | src/sdn_controller/core/entities/operation.py:130-197 | the collapsed history is accepted followed by the targets of the transitions that were not refused |
| `Operation.EveryPathHappens` | src/sdn_controller/core/entities/operation.py:56-79 | every path of the table is the collapsed history of some run |
| `Operation.ErrorWrittenOnce` | src/sdn_controller/core/entities/operation.py:150-161 | at most one granted call carries an error, it is the stored one, and the status is failed or rolled back |
| `Operation.TerminalIsFinal` | src/sdn_controller/core/entities/operation.py:74-78 | a finished operation only collects log lines |
| `Operation.Operation.Accept` | src/sdn_controller/core/entities/operation.py:98-126 | a new operation with its first event |
| `Operation.Operation.TransitionTo` | src/sdn_controller/core/entities/operation.py:130-171 | the new state and the event, or the refusal, which changes nothing |
| `Operation.Operation.Log` | src/sdn_controller/core/entities/operation.py:173-197 | appends an event of the current status, in any status |
| `Subnet.Validate` | src/sdn_controller/core/entities/network.py:70-127 | accepts exactly the subnets whose pools and reservations lie inside, whose pools do not overlap and whose gateway is inside but in no pool; a refusal names a problem that is there |
| `Subnet.PooledCount` | src/sdn_controller/core/entities/network.py:97-103 | non-overlapping pools address as many hosts as their sizes add up to, all inside the CIDR |
| `Subnet.PoolsAndGatewayFit` | src/sdn_controller/core/entities/network.py:70-127 | pool sizes and the gateway together never exceed the CIDR |
| `Subnet.PooledAddressIsFree` | src/sdn_controller/core/entities/network.py:92-113 | a pooled address is inside the CIDR, in no other pool, and not the gateway |
| `Subnet.OverlapsIff` | src/sdn_controller/core/value_objects/ipam.py:55-60 | two ranges overlap if and only if some address is in both |
| `Subnet.InsideIff` | src/sdn_controller/core/entities/network.py:116-127 | a range is inside a network if and only if each of its addresses is |
| `Subnet.NetHolds` | src/sdn_controller/core/entities/network.py:70-84 | a network holds as many addresses of its family as its size says |
| `Ordering.SortSorts` | src/sdn_controller/core/entities/security_policy.py:139-139 | `sorted` orders a sequence and keeps its elements |
| `Ordering.SortStable` | src/sdn_controller/core/entities/security_policy.py:139-139 | `sorted` keeps the order of elements that tie |
| `Ordering.StrLeqIff` | src/netos_agent/core/entities/ovs_state.py:63-63 | names are ordered lexicographically |
| `Text.StrReads` | src/netos_agent/adapters/ovsdb_fake/adapter.py:122-124 | a printed integer reads back |
| `Text.DecimalIsCanonical` | src/netos_agent/adapters/ovsdb_fake/adapter.py:122-124 | and has no leading zero |

## Left out

- SHA-256 and JSON text: taken as injective, so the canonical value stands for the hash; a collision is not modelled.
- Dictionary iteration order, where no output depends on it, is unspecified.
- Atomicity: each mutex section or committed transaction is one step; `Snapshot` reads state and dump in one moment, so a plan interleaved between the two reads is not modelled.
- Floating point: the limiter is over reals; rounding is not modelled.
- Subprocess calls, file writes, reloads and signals: `nft` answers with a flag, CoreDNS files are a map from names to texts, and CoreDNS's own validation always succeeds.
- File paths: zone file names are compared as text; a slash in a zone name, and newline translation by text-mode reading, are not modelled.
- The digit class of the record expression: only the ten ASCII digits, not other Unicode decimals.
- The printed nft lines: statements are lists of expressions; NAT rules are carried in the script, but their apply and delete methods and the counters are not modelled. IPv6 CIDRs (the renderer writes `ip saddr` for them) are outside the packet model.
- OVSDB cells of shapes that no valid table has: decoding answers none instead of Python's `str()` results and exceptions; JSON booleans and numbers in text columns are among them.
- Snapshot payloads of the wrong JSON types beyond absent keys, and absent keys in the controller's payloads.
- The plan types of controller and agent: mirrored field for field in the source, one datatype here; the wire codec between them is left out, and so are exception texts beyond the missing bridge's name.
- `get_capabilities`, the views of `FakeAgent`, its snapshot hash and `seed_*` helpers: they add only easy members; the hash of its dumps depends on list order.
- DHCP and NAT spec checks, CIDR parsing, `SecurityPolicyRule` field checks, and rule construction: predicates on single fields. Address and network parsing are parameters.
- The event-id lookups, `list_undelivered` and the re-validation of stored outbox events.
- PgAdvisoryLockStore's connections: only its key hashing is modelled; UTF-8 encoding of the key is taken as given.
- The SQL repositories, planner, reconciler, IPAM allocator, HTTP layers, CLI, telemetry and webhooks: copying, I/O or library wrappers.
- Outbox.ReaderIsExactlyOnce: events deleted before the reader reaches them are not received; the lemma speaks of events still stored, and Outbox.MissedIff says which are not.
- Outbox.InMemoryOutboxRepository.ListSince: returns values; the deep copies that keep callers from reaching stored payloads are implied by that, not modelled as objects.
- RateLimit.GrantedIffEveryWindowFits: needs a clock that never steps back, which RateLimit.ExactIffSteady shows to be necessary; RateLimit.GreedyExactly and RateLimit.WindowBound cover any clock.
- RateLimit.EveryWindowIsBounded: the same, by RateLimit.BoundedIffSteady.
- CorednsDns.RenderIsInjective: not promised for valid zones with white space in their fields; DnsTidy.TidyIsInjective covers those whose record names alone have it, and DnsAgreement.AliasValueIsNotOneRecord and DnsTidy.OneLineTwoZones show it false beyond.
- DnsTidy.FilesAgreeIff: the exact condition is for tidy zones. Zone names with white space other than a blank, values that are empty or have spaces, and SOA addresses with a line end are valid too; for them there are counterexamples, not an exact condition.
- CorednsDns.RoundTripIff: asks that the SOA address stays on its line, which DnsTidy.SoaMayCarryARecord shows is needed.
- ApplyPlan.Snapshots.Snapshot: the source reads state and dump in two lock sections; a plan between them, after which hash and payload differ, is not modelled.
