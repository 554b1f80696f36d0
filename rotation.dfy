// What one snapshot refresh pass asks of the gateway, as a function of how the
// provider answers: the specification that SnapshotService.RefreshSnapshots is
// proved against. A pass is described by how it extends the gateway's trace;
// the call at position j of a trace is the j-th call the provider answers.
module Rotation {
  import opened Models
  import opened Contabo
  import opened Selection

  /** How a pass ends. `FleetListMissing` is a successful fleet listing whose
      payload (or its instance list) is null: the loop then dereferences null
      and the pass ends with an exception. */
  datatype PassEnd = Finished | FleetListingFailed | FleetListMissing

  /** The snapshots a successful listing answered; a failed listing and a null
      list both give none. */
  function Listed(answer: Result<Option<seq<Snapshot>>>): (snaps: seq<Snapshot>)
    ensures answer.Success? && answer.data.Some? ==> snaps == answer.data.value
    ensures !(answer.Success? && answer.data.Some?) ==> snaps == []
  {
    match answer
    case Success(Some(snaps)) => snaps
    case _ => []
  }

  /** The trace after visiting one instance: list its snapshots; unless that
      failed or found none, delete the oldest; unless that failed, create its
      replacement with the same name and description. */
  function AfterInstance(p: Provider, t: seq<Call>, inst: Instance): (r: seq<Call>)
    ensures |t| < |r| <= |t| + 3 && r[..|t|] == t
    ensures r[|t|] == Call.ListSnapshots(inst.instanceId)
  {
    var id := inst.instanceId;
    var listed := t + [Call.ListSnapshots(id)];
    var snaps := Listed(p.snapshots(|t|, id));
    if |snaps| == 0 then listed
    else
      var oldest := Oldest(snaps);
      var deleted := listed + [Call.DeleteSnapshot(id, oldest.snapshotId)];
      if p.delete(|listed|, id, oldest.snapshotId).Failure? then deleted
      else deleted + [Call.CreateSnapshot(id, oldest.name, oldest.description)]
  }

  /** The trace after visiting the instances of `fleet` in order. */
  function AfterFleet(p: Provider, t: seq<Call>, fleet: seq<Instance>): (r: seq<Call>)
    ensures |t| + |fleet| <= |r| <= |t| + 3 * |fleet| && r[..|t|] == t
    decreases |fleet|
  {
    if fleet == [] then t
    else AfterInstance(p, AfterFleet(p, t, fleet[..|fleet| - 1]), fleet[|fleet| - 1])
  }

  /** Visiting one more instance of the fleet is one more `AfterInstance` step. */
  lemma AfterFleetStep(p: Provider, t: seq<Call>, fleet: seq<Instance>, i: nat)
    requires i < |fleet|
    ensures AfterFleet(p, t, fleet[..i + 1]) == AfterInstance(p, AfterFleet(p, t, fleet[..i]), fleet[i])
  {
    assert fleet[..i + 1][..i] == fleet[..i];
  }

  /** The trace after a whole pass: list the fleet, then visit what was listed. */
  function AfterPass(p: Provider, t: seq<Call>): (r: seq<Call>)
    ensures |t| < |r| && r[..|t|] == t && r[|t|] == Call.ListInstances
  {
    var listed := t + [Call.ListInstances];
    match p.instances(|t|)
    case Success(Some(fleet)) => AfterFleet(p, listed, fleet)
    case _ => listed
  }

  /** How a pass that starts after the calls `t` ends: it runs through the
      fleet only when the fleet listing succeeded with a list. */
  function PassOutcome(p: Provider, t: seq<Call>): (end: PassEnd)
    ensures end == Finished <==> p.instances(|t|).Success? && p.instances(|t|).data.Some?
  {
    match p.instances(|t|)
    case Failure(_) => FleetListingFailed
    case Success(None) => FleetListMissing
    case Success(Some(_)) => Finished
  }
}
