# Membership registry of the dgraph zero coordinator

This project models the in-memory membership registry of `dgraphzero`, the
coordinator node of a dgraph cluster, as written in `cmd/dgraphzero/zero.go`.
It proves properties of the model in Dafny.

The registry (`Zero.Server`) holds four fields:

- `groupMap`: replica group id to (member id to the member's stored record);
- `nextGroup`: the uint32 counter that names the next new group;
- `NumReplicas`: the number of replicas wanted per group;
- `tablets`: the list of tablets, each naming a predicate and the group serving it.

It has four operations:

- `Connect` places a joining data-serving node into a replica group.
  It checks cancellation, the member id and the address, in that order.
  It then consults the connection test. After that it tries the member's
  preferred group, then any group with room, then a new group named by
  `nextGroup`.
- `HasMember` tells whether a member's asserted group exists and holds its id.
- `ShouldServe` answers "wrong" to an unknown caller. For a known caller it
  finds the owner group of the tablet, taken from the *last* tablet entry for
  that predicate. It answers "ok" when the caller's group owns the tablet,
  "not" when another group does, and nothing when nobody does.
- `Update` is the heartbeat. It does nothing beyond its cancellation check.

`Connect` is a class method that updates the maps in place. Its result is
tied to a relation, `Zero.Placement`, that mirrors the placement rule branch
by branch. The properties of placement are lemmas about that relation.
The source scans the groups in Go map order, which is unspecified. So the
model's scan picks each next group with `:|`, and `Placement` only says that
the chosen group is *some* group with room. `nextGroup++` wraps around at 2^32,
which `Protos.Succ` writes out.

Behaviour of the code worth knowing:

- `nextGroup` starts at 0, so the first group the registry allocates is
  group 0 (`Scenarios.OneReplicaPerGroup`).
- The scan for a group with room follows Go map order, which is unordered.
- `ShouldServe` makes no claim for an unowned tablet and gives no answer.
- `ShouldServe` does not check for cancellation.
- `hasMember` looks the member up under its *asserted* group rather than
  searching by id and comparing groups. With every record stored under its own
  group (`Zero.Consistent`), the two readings agree (`Zero.HasMemberIffRecorded`).
- A known member that reconnects without a preferred group goes through the
  scan. The code does not stop it from landing in a second group, and the
  model does not claim otherwise.

Files: `protos.dfy` (wire types, uint32 increment), `zero.dfy` (the registry),
`scenarios.dfy` (concrete runs derived from the contracts).

## Model

| member | source | states |
|---|---|---|
| `Protos.Succ` | cmd/dgraphzero/zero.go:113 | `nextGroup++` on a uint32: one more, except that the largest value wraps to 0 |
| `Zero.Server.constructor` | cmd/dgraphzero/zero.go:41-49 | a fresh registry has no groups, counter 0, and the given replica count and tablets |
| `Zero.Server.Connect` | cmd/dgraphzero/zero.go:56-118 | refusals in order: Cancelled, then InvalidId, then InvalidAddress, then Unreachable; each holds whatever the later inputs are and leaves `groupMap` and `nextGroup` unchanged; the call is refused exactly when one of these checks fails; an admitted call changes the registry as `Placement` says, returns the member's final group, and leaves the member passing `HasMember` under that group; every call keeps records under their own keys and, with `NumReplicas >= 1`, keeps every group within `NumReplicas` members |
| `Zero.Server.Place` | cmd/dgraphzero/zero.go:79-117 | the new group map, counter and final group are related to the old ones by `Placement`: a missing preferred group is created holding only `m`; a member already in its preferred group, or a preferred group with room, gets `m` stored there; otherwise some group with room takes `m` with that group id; only when no group has room is `m` put alone under the old counter value, which then steps once |
| `Zero.PlacementStoresMember` | cmd/dgraphzero/zero.go:79-117 | after placement the member is stored in its final group as `m` carrying that group id, so `HasMember` holds of it; a missing preferred group, or one that already holds the member, is the final group |
| `Zero.PlacementTouchesOneGroup` | cmd/dgraphzero/zero.go:79-116 | the only group id that can be added or changed is the member's final group; every other group is unchanged; when the counter does not move, an existing final group keeps all its members |
| `Zero.PlacementReplacesCounterGroup` | cmd/dgraphzero/zero.go:111-116 | as written: when the counter moves and a group already has the old counter's id, that group is replaced by one holding only the new member, and every other member it held is gone |
| `Zero.PlacementCounter` | cmd/dgraphzero/zero.go:104-116 | the counter stays or moves by one uint32 step; it moves exactly when the preferred group does not decide and no group has room; then the member's group is the old counter value; otherwise the member's group exists already or is its preferred one |
| `Zero.PlacementReconnect` | cmd/dgraphzero/zero.go:90-93 | a member already in its preferred group keeps that group; its record is replaced by `m`; no group's member set changes and the counter is unchanged |
| `Zero.PlacementKeepsConsistent` | cmd/dgraphzero/zero.go:84-116 | if every stored record sits under its own group id and member id, that still holds after placement |
| `Zero.PlacementKeepsCapacity` | cmd/dgraphzero/zero.go:95-116 | with `NumReplicas >= 1`, if no group exceeds `NumReplicas` members then none does after placement |
| `Zero.HasMemberIffRecorded` | cmd/dgraphzero/zero.go:120-128 | with consistent records, `hasMember` holds exactly when some group records a member with the caller's id whose group is the caller's asserted group |
| `Zero.TabletOwnerNoMatch` | cmd/dgraphzero/zero.go:141-148 | if no tablet entry names the predicate, the owner found is 0 |
| `Zero.TabletOwnerLastMatch` | cmd/dgraphzero/zero.go:141-148 | if entry k is the last one naming the predicate, the owner found is entry k's group |
| `Zero.Server.ShouldServe` | cmd/dgraphzero/zero.go:130-164 | "wrong" exactly when the caller is not a member; otherwise no answer exactly when the owner is 0, "ok" exactly when the owner is the caller's group, "not" exactly when it is another group; the registry is not changed |
| `Zero.Server.Update` | cmd/dgraphzero/zero.go:166-172 | fails with Cancelled exactly when cancelled, otherwise passes; the registry is not changed |
| `Zero.Server.AddToFreshGroup` | cmd/dgraphzero/zero.go:111-116 | corrected allocation: the new group's id is not in use; it is the first free id counting up from `nextGroup`; every existing group is kept unchanged |
| `Scenarios.OneReplicaPerGroup` | cmd/dgraphzero/zero.go:104-116 | with one replica per group, the first member gets group 0 and the second group 1 |
| `Scenarios.ThreeReplicasShareGroup` | cmd/dgraphzero/zero.go:104-116 | with three replicas per group, members 1 to 3 all get group 0 |
| `Scenarios.FullGroupOpensAnother` | cmd/dgraphzero/zero.go:104-116 | with three replicas per group, group 0 full and the counter at 1, member 4 gets group 1 |
| `Scenarios.CancelledConnect` | cmd/dgraphzero/zero.go:58-60 | a cancelled call is refused with Cancelled even with id 0 and an empty address, and leaves the registry empty |
| `Scenarios.ServeDecisions` | cmd/dgraphzero/zero.go:133-163 | the last entry for a predicate decides the owner; its group gets "ok" and another group gets "not"; an unowned tablet gets no answer; an unknown caller gets "wrong" |
| `Scenarios.LostMemberScenario` | cmd/dgraphzero/zero.go:79-116 | a member stored in a group created through its preferred id is a member, and after a later allocation picks the same id it is a member no longer |
| `Scenarios.KeptMemberScenario` | cmd/dgraphzero/zero.go:111-116 | in the same situation the corrected allocation picks group 2 and the member stays |

## Left out

- Locking (`x.SafeMutex`, `Lock`, `RLock`, `AssertRLock`): every operation is modelled as atomic.
- The connection pool, the echo test and `Release`: the test's outcome is the parameter `probeOk`.
- `context.Context`: reduced to the flag `cancelled`.
- `raftwal.Wal`: never used in this file; proposing to Raft is only a TODO.
- Logging (`x.Printf`).
- `createMembershipUpdate` and the `MembershipUpdate` payload: a stub; success paths return a nil pointer. `Connect` returns the member's final group instead.
- The wire types' fields beyond a member's id, address and group and a tablet's predicate and group.
- The writes through the nil `resp` pointer in `ShouldServe`: the decision is returned as a `ServeAnswer` value. The Go code would panic on those writes.
- A query without a member or a tablet: the Go code dereferences both, so the model always takes both.
- The creation of the `Server` value and of its map: this happens outside `zero.go`. The constructor stands for it and takes the replica count and the tablets as parameters.
- Claiming an unowned tablet: not implemented in the source, so not modelled.
- Zero.Server.Connect: cannot say that no connection test is run when an earlier check fails; it says that the result and the state do not depend on `probeOk` then.
- Zero.Server.Connect: the caller's `*m` is updated in place with the final group id; the model returns that id in `Joined` instead.

## Findings

| source | as written | input that shows it | evidently intended | confidence | as-written member | corrected member |
|---|---|---|---|---|---|---|
| cmd/dgraphzero/zero.go:112-116 | a new group is stored at `nextGroup` without checking whether that id is already a group; the existing group is replaced | `NumReplicas` 1; Connect(id 1, group 1) creates group 1; Connect(id 2, no group) gets group 0 and the counter becomes 1; Connect(id 3, no group) finds no room and stores group 1 afresh, so member 1 is lost | a new group takes an id no group uses, and no registered member is dropped | not executed; follows from the contracts | `Scenarios.LostMemberScenario` | `Zero.Server.AddToFreshGroup` |

`Zero.Server.Connect` keeps the allocation as written, because it models the
source. `Zero.Server.AddToFreshGroup` is the allocation a corrected `Connect`
would use at the same point. It needs fewer than 2^32 groups to exist.
