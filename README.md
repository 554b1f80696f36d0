# Snapshot rotation pass: a Dafny model

This project models the snapshot refresh pass of a small backup tool for
cloud compute instances at the Contabo provider. `SnapshotService.RefreshSnapshotsAsync`
lists the fleet of instances. For each instance, in listing order, it lists
that instance's snapshots and picks the oldest one
(`OrderBy(s => s.CreatedAt).First()`). It deletes that snapshot and, only if
the delete succeeded, creates a replacement with the same name and
description. A failed gateway call for one instance skips only that instance.
The pass ends early when the fleet listing fails, and also, through an
uncaught exception, when the gateway hands back a null fleet payload or fleet
list, or a null element inside the fleet or a snapshot list.

Files, one module each:

- `models.dfy` (`Models`): the fields of instances and snapshots that the pass
  reads, and the `Result` envelope (success with a payload, or failure with a
  message) that every gateway call returns.
- `gateway.dfy` (`Contabo`): the gateway interface `IContaboService`, modelled
  as the class `Gateway`. Its answers come from a `Provider`: an arbitrary
  function of the call's position among all calls answered and of the call's
  arguments. Proofs made for every `Provider` therefore hold whatever the
  provider answers. Each call appends a `Call` record to the ghost `trace`.
- `selection.dfy` (`Selection`): LINQ's stable `OrderBy` on `CreatedAt`,
  modelled as a stable insertion sort. `Oldest` takes its first element.
  `FirstMinIndex` is an independent reference definition: the first position
  holding the minimum time stamp.
- `rotation.dfy` (`Rotation`): the specification of a pass. It says how a pass
  extends the trace (`AfterInstance`, `AfterFleet`, `AfterPass`) and how it
  ends (`PassOutcome`).
- `service.dfy` (`Services`): the class `SnapshotService`. `RefreshSnapshots`
  is the `foreach` loop with its `continue` exits. It is proved to extend the
  trace exactly as `AfterPass` says. `CreateSnapshot` and `DeleteSnapshot`
  are the forwarding wrappers.
- `properties.dfy` (`RotationProperties`): what a pass guarantees, proved
  about the specification for every provider.

There is no bootstrap path: an empty or null snapshot list skips the instance
(Services/SnaphostService.cs:131-135).

When the fleet listing succeeds but its payload, or the payload's instance
list, is null, the loop dereferences null and the pass ends with an uncaught
exception. The model names that ending `PassEnd.FleetListMissing`, and it
issues no further calls.

## Model

| member | source | states |
|---|---|---|
| `Selection.OrderByCreatedAt` | Services/SnaphostService.cs:138 | the ordering of the listed snapshots keeps their number; its order and content are stated by the two lemmas below |
| `Selection.OrderByCreatedAtSorts` | Services/SnaphostService.cs:138 | the ordering sorts the listed snapshots by creation time and is a permutation of them |
| `Selection.OrderByCreatedAtIsStable` | Services/SnaphostService.cs:138 | for every time stamp, the snapshots carrying it keep their listed order, as LINQ's stable `OrderBy` does |
| `Selection.FirstMinIndex` | Services/SnaphostService.cs:138 | the reference choice: a position holding the minimum creation time, with every earlier snapshot strictly newer |
| `Selection.OldestIsFirstMinimum` | Services/SnaphostService.cs:138 | the first element after ordering is the first listed snapshot among those tied for the minimum creation time |
| `Selection.OldestIsMinimalAndFirst` | Services/SnaphostService.cs:138 | the chosen snapshot was listed, no listed snapshot is older, and every snapshot listed before it is strictly newer |
| `Contabo.Gateway.ListInstances` | Services/Interfaces.cs:26 | one fleet listing call is recorded; its answer is the provider's answer for that call |
| `Contabo.Gateway.ListSnapshots` | Services/Interfaces.cs:20 | one snapshot listing call for the given instance is recorded; its answer is the provider's |
| `Contabo.Gateway.CreateSnapshot` | Services/Interfaces.cs:34 | one create call with the given instance, name and description is recorded; its answer is the provider's |
| `Contabo.Gateway.DeleteSnapshot` | Services/Interfaces.cs:36 | one delete call for the given instance and snapshot is recorded; its answer is the provider's |
| `Services.SnapshotService.constructor` | Services/SnaphostService.cs:15-19 | the service keeps the gateway it is given |
| `Services.SnapshotService.CreateSnapshot` | Services/SnaphostService.cs:66-85 | issues exactly one create call, with the arguments passed through unchanged |
| `Services.SnapshotService.DeleteSnapshot` | Services/SnaphostService.cs:86-100 | issues exactly one delete call, with the arguments passed through unchanged |
| `Services.SnapshotService.RefreshSnapshots` | Services/SnaphostService.cs:101-174 | the calls the loop issues are exactly those `AfterPass` gives for the provider's answers, and the pass ends as `PassOutcome` says |
| `Rotation.AfterInstance` | Services/SnaphostService.cs:117-170 | visiting an instance only appends one to three calls, and the first is the listing of that instance's snapshots |
| `Rotation.AfterFleet` | Services/SnaphostService.cs:115-171 | visiting a fleet only appends, at least one and at most three calls per instance |
| `Rotation.Listed` | Services/SnaphostService.cs:128-131 | the snapshots a listing answered: the payload's list when the call succeeded with one, and none when it failed or the list is null |
| `Rotation.AfterFleetStep` | Services/SnaphostService.cs:115-171 | visiting the first i + 1 instances is visiting the first i and then instance i |
| `Rotation.PassOutcome` | Services/SnaphostService.cs:106-173 | the pass finishes normally exactly when the fleet listing succeeded with a list, and then completes (173); otherwise it ends at the failed listing (108-111) or at the null dereference (114-115) |
| `Rotation.AfterPass` | Services/SnaphostService.cs:101-174 | a pass only appends, and its first call is the fleet listing |
| `RotationProperties.PassWithoutFleet` | Services/SnaphostService.cs:106-112 | a failed or null fleet listing is the only call of the pass, and the pass does not finish normally |
| `RotationProperties.FleetListedOnceFirst` | Services/SnaphostService.cs:106-115 | the fleet is listed exactly once, as the first call of the pass, and never again |
| `RotationProperties.NoFleetListingDuringVisits` | Services/SnaphostService.cs:115-171 | visiting instances never lists the fleet |
| `RotationProperties.NothingListedSkipsInstance` | Services/SnaphostService.cs:120-135 | a failed, null or empty snapshot listing is the only call for that instance: no delete, and no snapshot is created |
| `RotationProperties.FailedDeleteSkipsCreate` | Services/SnaphostService.cs:143-150 | when the delete of the oldest snapshot fails, the instance gets the listing and that delete, and no create |
| `RotationProperties.DeletedSnapshotIsReplaced` | Services/SnaphostService.cs:143-170 | after a successful delete, exactly one create follows at once, with the deleted snapshot's name and description |
| `RotationProperties.VisitedAfterInstance` | Services/SnaphostService.cs:117-120 | visiting an instance lists the snapshots of that instance and of no other |
| `RotationProperties.VisitedAfterFleet` | Services/SnaphostService.cs:115-171 | every instance of the fleet is visited exactly once, in listing order, whatever fails along the way |
| `RotationProperties.PassVisitsFleetInOrder` | Services/SnaphostService.cs:106-171 | after a successful fleet listing, the pass visits exactly the listed instances, once each, in order |
| `RotationProperties.AfterFleetExtends` | Services/SnaphostService.cs:115-171 | the calls for the first k instances are a prefix of the calls for the whole fleet |
| `RotationProperties.InstanceBlock` | Services/SnaphostService.cs:115-171 | the calls for the k-th instance form one contiguous block, right after the blocks of the instances before it |
| `RotationProperties.PassIsSafe` | Services/SnaphostService.cs:101-174 | whatever came before, every call of a pass is safe: each delete is aimed at the oldest snapshot just listed for that instance, and each create follows at once a successful delete of that snapshot, with its name and description |
| `Selection.Oldest` | Services/SnaphostService.cs:138 | the snapshot picked for deletion is one of those listed |
| `RotationProperties.AfterInstanceKeepsSafe` | Services/SnaphostService.cs:137-160 | visiting an instance keeps, from any position on, every delete aimed at the oldest snapshot just listed for that instance, and every create right after a successful delete of it, with its name and description |
| `RotationProperties.AfterFleetKeepsSafe` | Services/SnaphostService.cs:115-171 | visiting a fleet keeps that invariant from any position on |
| `RotationProperties.PassKeepsSafe` | Services/SnaphostService.cs:101-174 | a whole pass keeps a safe trace safe, so no create is issued without a successful delete of the same instance just before it |

## Left out

- The HTTP client of the gateway (Services/ContanoApiService.cs) is not part of this model. OAuth token acquisition and caching, request headers and JSON deserialisation are left out. The gateway is modelled by its interface contract. Every implemented call catches its own exceptions and returns a failed result, so failures are values here.
- `IContaboService.AuthenticateAsync` (Services/Interfaces.cs:13) is not used by the pass and is left out.
- `SnapshotService.ListInstancesAsync` and `SnapshotService.ListSnapshotsAsync` (Services/SnaphostService.cs:21-64) only log what the gateway returns. They add nothing beyond the gateway contract.
- Logging is left out. The wrappers and the pass return nothing in the source, and their outcomes are only logged.
- async/await is modelled as ordinary sequential calls.
- The console menu and the dependency-injection wiring (Program.cs) are left out.
- `CreatedAt` is a `DateTime`; the model uses an integer tick count, because only its ordering is used.
- Instance ids are `long` in the source and `int` here. They are only passed through, never computed with.
- A null element in the instance list makes the loop throw when it reads the instance id (Services/SnaphostService.cs:117) and ends the pass partway. The model's fleet holds instance records only.
- A null element inside a snapshot list would make the `OrderBy` key selector throw. The model's lists hold snapshot records only.
- A successful create whose payload is null would throw when the pass logs the new id (Services/SnaphostService.cs:164-165), as would the wrapper (Services/SnaphostService.cs:78-79). The gateway never answers that way: it rejects a missing or empty data array (Services/ContanoApiService.cs:216-221), and a null first element throws when its id is logged (Services/ContanoApiService.cs:224-225) inside the `try`, so the call comes back as a failure (Services/ContanoApiService.cs:238-242). Only a gateway other than `ContaboService` could answer with a successful create without a snapshot; the model's `Result<Snapshot>` leaves that out.
- This code has no bootstrap of a first snapshot, no bulk purge and no structured run report, so the model has none.
