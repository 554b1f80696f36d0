// The snapshot service: thin forwarding wrappers and the rotation pass.
module Services {
  import opened Models
  import opened Contabo
  import opened Selection
  import opened Rotation

  class SnapshotService {
    const gateway: Gateway

    constructor (g: Gateway)
      ensures gateway == g
    {
      gateway := g;
    }

    /** Forwards a creation request verbatim; the answer is only logged. */
    method CreateSnapshot(instanceId: int, name: string, description: string)
      requires gateway.Valid()
      modifies gateway
      ensures gateway.Valid()
      ensures gateway.trace == old(gateway.trace) + [Call.CreateSnapshot(instanceId, name, description)]
    {
      var created := gateway.CreateSnapshot(instanceId, name, description);
    }

    /** Forwards a deletion request verbatim; the answer is only logged. */
    method DeleteSnapshot(instanceId: int, snapshotId: string)
      requires gateway.Valid()
      modifies gateway
      ensures gateway.Valid()
      ensures gateway.trace == old(gateway.trace) + [Call.DeleteSnapshot(instanceId, snapshotId)]
    {
      var deleted := gateway.DeleteSnapshot(instanceId, snapshotId);
    }

    /** One refresh pass over the whole fleet: for each instance, delete its
        oldest snapshot and create a replacement with the same name and
        description. A failure for one instance only skips that instance. */
    method RefreshSnapshots() returns (end: PassEnd)
      requires gateway.Valid()
      modifies gateway
      ensures gateway.Valid()
      ensures gateway.trace == AfterPass(gateway.provider, old(gateway.trace))
      ensures end == PassOutcome(gateway.provider, old(gateway.trace))
    {
      var instancesResult := gateway.ListInstances();
      if instancesResult.Failure? {
        return FleetListingFailed;
      }
      if instancesResult.data.None? {
        return FleetListMissing;
      }
      var fleet := instancesResult.data.value;
      ghost var start := gateway.trace;
      for i := 0 to |fleet|
        invariant gateway.Valid()
        invariant gateway.trace == AfterFleet(gateway.provider, start, fleet[..i])
      {
        var instance := fleet[i];
        AfterFleetStep(gateway.provider, start, fleet, i);

        var snapshotsResult := gateway.ListSnapshots(instance.instanceId);
        if snapshotsResult.Failure? {
          continue;
        }
        var snapshots := snapshotsResult.data;
        if snapshots.None? || |snapshots.value| == 0 {
          continue;
        }

        var oldestSnapshot := Oldest(snapshots.value);
        var deleteResult := gateway.DeleteSnapshot(instance.instanceId, oldestSnapshot.snapshotId);
        if deleteResult.Failure? {
          continue;
        }

        var createResult := gateway.CreateSnapshot(instance.instanceId, oldestSnapshot.name, oldestSnapshot.description);
      }
      assert fleet[..|fleet|] == fleet;
      end := Finished;
    }
  }
}
