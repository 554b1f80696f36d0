// The cloud provider's snapshot gateway (the IContaboService interface), as
// seen by the snapshot service: four operations, each answering with a Result,
// and a record of every call issued.
module Contabo {
  import opened Models

  /** One call issued against the gateway, with the arguments it carried. */
  datatype Call =
    | ListInstances
    | ListSnapshots(instanceId: int)
    | DeleteSnapshot(instanceId: int, snapshotId: string)
    | CreateSnapshot(instanceId: int, name: string, description: string)

  /** How the provider answers. Each answer is an arbitrary function of the
      position of the call among all calls issued so far and of its arguments,
      so anything proved for every `Provider` holds whatever the provider does:
      an authentication failure, an HTTP error, a timeout, or success.
      A `None` payload is a response that deserialised to null. */
  datatype Provider = Provider(
    instances: nat -> Result<Option<seq<Instance>>>,
    snapshots: (nat, int) -> Result<Option<seq<Snapshot>>>,
    delete: (nat, int, string) -> Result<()>,
    create: (nat, int, string, string) -> Result<Snapshot>)

  class Gateway {
    /** What the provider answers. */
    const provider: Provider
    /** How many calls have been answered so far. */
    var issued: nat
    /** Every call issued, in order. */
    ghost var trace: seq<Call>

    ghost predicate Valid()
      reads this
    {
      issued == |trace|
    }

    constructor (p: Provider)
      ensures Valid() && provider == p && trace == []
    {
      provider := p;
      issued := 0;
      trace := [];
    }

    method ListInstances() returns (r: Result<Option<seq<Instance>>>)
      requires Valid()
      modifies this
      ensures Valid() && trace == old(trace) + [Call.ListInstances]
      ensures r == provider.instances(old(issued))
    {
      r := provider.instances(issued);
      issued := issued + 1;
      trace := trace + [Call.ListInstances];
    }

    method ListSnapshots(instanceId: int) returns (r: Result<Option<seq<Snapshot>>>)
      requires Valid()
      modifies this
      ensures Valid() && trace == old(trace) + [Call.ListSnapshots(instanceId)]
      ensures r == provider.snapshots(old(issued), instanceId)
    {
      r := provider.snapshots(issued, instanceId);
      issued := issued + 1;
      trace := trace + [Call.ListSnapshots(instanceId)];
    }

    method DeleteSnapshot(instanceId: int, snapshotId: string) returns (r: Result<()>)
      requires Valid()
      modifies this
      ensures Valid() && trace == old(trace) + [Call.DeleteSnapshot(instanceId, snapshotId)]
      ensures r == provider.delete(old(issued), instanceId, snapshotId)
    {
      r := provider.delete(issued, instanceId, snapshotId);
      issued := issued + 1;
      trace := trace + [Call.DeleteSnapshot(instanceId, snapshotId)];
    }

    method CreateSnapshot(instanceId: int, name: string, description: string) returns (r: Result<Snapshot>)
      requires Valid()
      modifies this
      ensures Valid() && trace == old(trace) + [Call.CreateSnapshot(instanceId, name, description)]
      ensures r == provider.create(old(issued), instanceId, name, description)
    {
      r := provider.create(issued, instanceId, name, description);
      issued := issued + 1;
      trace := trace + [Call.CreateSnapshot(instanceId, name, description)];
    }
  }
}
