// Properties of a refresh pass, stated over the trace of gateway calls it
// issues and proved for every way the provider may answer.
module RotationProperties {
  import opened Models
  import opened Contabo
  import opened Selection
  import opened Rotation

  // ---------------------------------------------------------------------------
  // The fleet listing

  /** When the fleet listing fails, or answers null, the pass issues that one
      call and nothing else. */
  lemma PassWithoutFleet(p: Provider, t: seq<Call>)
    requires !(p.instances(|t|).Success? && p.instances(|t|).data.Some?)
    ensures AfterPass(p, t) == t + [Call.ListInstances]
    ensures PassOutcome(p, t) != Finished
  {
  }

  /** The fleet is listed exactly once, as the first call of the pass. */
  lemma {:induction false} FleetListedOnceFirst(p: Provider, t: seq<Call>)
    ensures |AfterPass(p, t)| > |t| && AfterPass(p, t)[..|t|] == t
    ensures AfterPass(p, t)[|t|] == Call.ListInstances
    ensures forall j :: |t| < j < |AfterPass(p, t)| ==> !AfterPass(p, t)[j].ListInstances?
  {
    var listed := t + [Call.ListInstances];
    match p.instances(|t|)
    case Success(Some(fleet)) =>
      AfterFleetExtends(p, listed, fleet, 0);
      NoFleetListingDuringVisits(p, listed, fleet);
    case _ =>
  }

  // ---------------------------------------------------------------------------
  // One instance

  /** An instance whose snapshot listing failed, was null or was empty gets that
      one listing call: no delete, and no snapshot is created for it. */
  lemma NothingListedSkipsInstance(p: Provider, t: seq<Call>, inst: Instance)
    requires |Listed(p.snapshots(|t|, inst.instanceId))| == 0
    ensures AfterInstance(p, t, inst) == t + [Call.ListSnapshots(inst.instanceId)]
  {
  }

  /** An instance whose oldest snapshot could not be deleted gets no create. */
  lemma FailedDeleteSkipsCreate(p: Provider, t: seq<Call>, inst: Instance)
    requires |Listed(p.snapshots(|t|, inst.instanceId))| > 0
    requires p.delete(|t| + 1, inst.instanceId, Oldest(Listed(p.snapshots(|t|, inst.instanceId))).snapshotId).Failure?
    ensures var oldest := Oldest(Listed(p.snapshots(|t|, inst.instanceId)));
            AfterInstance(p, t, inst)
            == t + [Call.ListSnapshots(inst.instanceId), Call.DeleteSnapshot(inst.instanceId, oldest.snapshotId)]
  {
  }

  /** An instance whose oldest snapshot was deleted gets exactly one create,
      right after the delete, with the deleted snapshot's name and description. */
  lemma DeletedSnapshotIsReplaced(p: Provider, t: seq<Call>, inst: Instance)
    requires |Listed(p.snapshots(|t|, inst.instanceId))| > 0
    requires p.delete(|t| + 1, inst.instanceId, Oldest(Listed(p.snapshots(|t|, inst.instanceId))).snapshotId).Success?
    ensures var oldest := Oldest(Listed(p.snapshots(|t|, inst.instanceId)));
            AfterInstance(p, t, inst)
            == t + [Call.ListSnapshots(inst.instanceId),
                    Call.DeleteSnapshot(inst.instanceId, oldest.snapshotId),
                    Call.CreateSnapshot(inst.instanceId, oldest.name, oldest.description)]
  {
  }

  // ---------------------------------------------------------------------------
  // The fleet: every instance visited once, in listing order

  /** The instances whose snapshots the trace lists, in call order. */
  function Visited(t: seq<Call>): (ids: seq<int>)
    ensures |ids| <= |t|
  {
    if t == [] then []
    else
      var last := t[|t| - 1];
      Visited(t[..|t| - 1]) + if last.ListSnapshots? then [last.instanceId] else []
  }

  /** The identities of the listed instances, in listing order. */
  function InstanceIds(fleet: seq<Instance>): (ids: seq<int>)
    ensures |ids| == |fleet|
    ensures forall k :: 0 <= k < |fleet| ==> ids[k] == fleet[k].instanceId
  {
    if fleet == [] then []
    else InstanceIds(fleet[..|fleet| - 1]) + [fleet[|fleet| - 1].instanceId]
  }

  lemma VisitedSnoc(t: seq<Call>, c: Call)
    ensures Visited(t + [c]) == Visited(t) + if c.ListSnapshots? then [c.instanceId] else []
    ensures !c.ListSnapshots? ==> Visited(t + [c]) == Visited(t)
  {
    assert (t + [c])[..|t|] == t;
  }

  /** Visiting an instance lists the snapshots of that instance and of no other. */
  lemma VisitedAfterInstance(p: Provider, t: seq<Call>, inst: Instance)
    ensures Visited(AfterInstance(p, t, inst)) == Visited(t) + [inst.instanceId]
  {
    var id := inst.instanceId;
    var listed := t + [Call.ListSnapshots(id)];
    VisitedSnoc(t, Call.ListSnapshots(id));
    var snaps := Listed(p.snapshots(|t|, id));
    if |snaps| > 0 {
      var oldest := Oldest(snaps);
      var deleted := listed + [Call.DeleteSnapshot(id, oldest.snapshotId)];
      VisitedSnoc(listed, Call.DeleteSnapshot(id, oldest.snapshotId));
      VisitedSnoc(deleted, Call.CreateSnapshot(id, oldest.name, oldest.description));
    }
  }

  /** Every listed instance is visited exactly once, in listing order, whatever
      fails along the way. */
  lemma {:induction false} VisitedAfterFleet(p: Provider, t: seq<Call>, fleet: seq<Instance>)
    ensures Visited(AfterFleet(p, t, fleet)) == Visited(t) + InstanceIds(fleet)
    decreases |fleet|
  {
    if fleet != [] {
      var init := fleet[..|fleet| - 1];
      var before := AfterFleet(p, t, init);
      VisitedAfterFleet(p, t, init);
      VisitedAfterInstance(p, before, fleet[|fleet| - 1]);
      assert AfterFleet(p, t, fleet) == AfterInstance(p, before, fleet[|fleet| - 1]);
      assert InstanceIds(fleet) == InstanceIds(init) + [fleet[|fleet| - 1].instanceId];
    }
  }

  /** The pass visits the listed fleet exactly once per instance, in order. */
  lemma {:induction false} PassVisitsFleetInOrder(p: Provider, t: seq<Call>, fleet: seq<Instance>)
    requires p.instances(|t|) == Success(Some(fleet))
    ensures Visited(AfterPass(p, t)) == Visited(t) + InstanceIds(fleet)
  {
    var listed := t + [Call.ListInstances];
    assert AfterPass(p, t) == AfterFleet(p, listed, fleet);
    VisitedSnoc(t, Call.ListInstances);
    assert Visited(listed) == Visited(t);
    VisitedAfterFleet(p, listed, fleet);
  }

  /** Visiting more instances only appends to the trace. */
  lemma {:induction false} AfterFleetExtends(p: Provider, t: seq<Call>, fleet: seq<Instance>, k: nat)
    requires k <= |fleet|
    ensures var upto := AfterFleet(p, t, fleet[..k]);
            |t| <= |upto| <= |AfterFleet(p, t, fleet)| && upto == AfterFleet(p, t, fleet)[..|upto|] && upto[..|t|] == t
    decreases |fleet|
  {
    if k == |fleet| {
      assert fleet[..k] == fleet;
      if fleet != [] {
        AfterFleetExtends(p, t, fleet[..|fleet| - 1], |fleet| - 1);
        assert fleet[..|fleet| - 1][..|fleet| - 1] == fleet[..|fleet| - 1];
      }
    } else {
      var init := fleet[..|fleet| - 1];
      assert fleet[..k] == init[..k];
      AfterFleetExtends(p, t, init, k);
    }
  }

  /** The calls for the k-th listed instance form one block of the pass's
      trace, right after the blocks of the instances listed before it, and that
      block is what `AfterInstance` says for the trace that precedes it. */
  lemma InstanceBlock(p: Provider, t: seq<Call>, fleet: seq<Instance>, k: nat)
    requires k < |fleet|
    ensures var before := AfterFleet(p, t, fleet[..k]);
            var upto := AfterInstance(p, before, fleet[k]);
            upto == AfterFleet(p, t, fleet[..k + 1]) &&
            |upto| <= |AfterFleet(p, t, fleet)| && upto == AfterFleet(p, t, fleet)[..|upto|]
  {
    assert fleet[..k + 1][..k] == fleet[..k];
    AfterFleetExtends(p, t, fleet, k + 1);
  }

  // ---------------------------------------------------------------------------
  // Invariants every pass keeps

  /** A delete at position j comes right after the listing of the same
      instance, whose answer was a non-empty list, and targets that list's
      oldest snapshot. */
  ghost predicate DeleteTargetsOldestAt(p: Provider, t: seq<Call>, j: nat)
    requires j < |t|
  {
    t[j].DeleteSnapshot? ==>
      1 <= j && t[j - 1] == Call.ListSnapshots(t[j].instanceId) &&
      |Listed(p.snapshots(j - 1, t[j].instanceId))| > 0 &&
      t[j].snapshotId == Oldest(Listed(p.snapshots(j - 1, t[j].instanceId))).snapshotId
  }

  /** A create at position j comes right after a successful delete of the
      oldest listed snapshot of the same instance, and carries that snapshot's
      name and description. */
  ghost predicate CreateReplacesDeletedAt(p: Provider, t: seq<Call>, j: nat)
    requires j < |t|
  {
    t[j].CreateSnapshot? ==>
      2 <= j && t[j - 2] == Call.ListSnapshots(t[j].instanceId) &&
      |Listed(p.snapshots(j - 2, t[j].instanceId))| > 0 &&
      var oldest := Oldest(Listed(p.snapshots(j - 2, t[j].instanceId)));
      t[j - 1] == Call.DeleteSnapshot(t[j].instanceId, oldest.snapshotId) &&
      p.delete(j - 1, t[j].instanceId, oldest.snapshotId).Success? &&
      t[j].name == oldest.name && t[j].description == oldest.description
  }

  /** From position `k` on, every delete in the trace is aimed at the oldest
      listed snapshot, and every create replaces a snapshot whose delete
      succeeded just before. */
  ghost predicate SafeFrom(p: Provider, t: seq<Call>, k: nat)
  {
    forall j: nat :: k <= j < |t| ==> DeleteTargetsOldestAt(p, t, j) && CreateReplacesDeletedAt(p, t, j)
  }

  /** The whole trace is safe. */
  ghost predicate RotationSafe(p: Provider, t: seq<Call>)
  {
    SafeFrom(p, t, 0)
  }

  /** Appending a call keeps the trace safe from `k` on when the new call is
      safe at its position. */
  lemma SnocKeepsSafe(p: Provider, t: seq<Call>, c: Call, k: nat)
    requires SafeFrom(p, t, k)
    requires DeleteTargetsOldestAt(p, t + [c], |t|) && CreateReplacesDeletedAt(p, t + [c], |t|)
    ensures SafeFrom(p, t + [c], k)
  {
    var r := t + [c];
    forall j: nat | k <= j < |r|
      ensures DeleteTargetsOldestAt(p, r, j) && CreateReplacesDeletedAt(p, r, j)
    {
      if j < |t| {
        assert r[j] == t[j];
        if 1 <= j { assert r[j - 1] == t[j - 1]; }
        if 2 <= j { assert r[j - 2] == t[j - 2]; }
        assert DeleteTargetsOldestAt(p, t, j) && CreateReplacesDeletedAt(p, t, j);
      }
    }
  }

  lemma AfterInstanceKeepsSafe(p: Provider, t: seq<Call>, inst: Instance, k: nat)
    requires SafeFrom(p, t, k)
    ensures SafeFrom(p, AfterInstance(p, t, inst), k)
  {
    var id := inst.instanceId;
    var listed := t + [Call.ListSnapshots(id)];
    SnocKeepsSafe(p, t, Call.ListSnapshots(id), k);
    var snaps := Listed(p.snapshots(|t|, id));
    if |snaps| > 0 {
      var oldest := Oldest(snaps);
      var del := Call.DeleteSnapshot(id, oldest.snapshotId);
      var deleted := listed + [del];
      assert deleted[|t|] == Call.ListSnapshots(id);
      SnocKeepsSafe(p, listed, del, k);
      if p.delete(|listed|, id, oldest.snapshotId).Success? {
        var create := Call.CreateSnapshot(id, oldest.name, oldest.description);
        assert (deleted + [create])[|t|] == Call.ListSnapshots(id);
        assert (deleted + [create])[|t| + 1] == del;
        SnocKeepsSafe(p, deleted, create, k);
      }
    }
  }

  lemma {:induction false} AfterFleetKeepsSafe(p: Provider, t: seq<Call>, fleet: seq<Instance>, k: nat)
    requires SafeFrom(p, t, k)
    ensures SafeFrom(p, AfterFleet(p, t, fleet), k)
    decreases |fleet|
  {
    if fleet != [] {
      AfterFleetKeepsSafe(p, t, fleet[..|fleet| - 1], k);
      AfterInstanceKeepsSafe(p, AfterFleet(p, t, fleet[..|fleet| - 1]), fleet[|fleet| - 1], k);
    }
  }

  /** Whatever came before it, every call of a pass is safe: each of its
      deletes is aimed at the oldest snapshot just listed for that instance,
      and each of its creates follows a successful delete of that snapshot and
      carries its name and description. */
  lemma PassIsSafe(p: Provider, t: seq<Call>)
    ensures SafeFrom(p, AfterPass(p, t), |t|)
  {
    var listed := t + [Call.ListInstances];
    SnocKeepsSafe(p, t, Call.ListInstances, |t|);
    match p.instances(|t|)
    case Success(Some(fleet)) =>
      AfterFleetKeepsSafe(p, listed, fleet, |t|);
    case _ =>
  }

  /** A pass keeps a safe trace safe. */
  lemma PassKeepsSafe(p: Provider, t: seq<Call>)
    requires RotationSafe(p, t)
    ensures RotationSafe(p, AfterPass(p, t))
  {
    var listed := t + [Call.ListInstances];
    SnocKeepsSafe(p, t, Call.ListInstances, 0);
    match p.instances(|t|)
    case Success(Some(fleet)) =>
      AfterFleetKeepsSafe(p, listed, fleet, 0);
    case _ =>
  }

  lemma {:induction false} NoFleetListingDuringVisits(p: Provider, t: seq<Call>, fleet: seq<Instance>)
    ensures |t| <= |AfterFleet(p, t, fleet)|
    ensures forall j :: |t| <= j < |AfterFleet(p, t, fleet)| ==> !AfterFleet(p, t, fleet)[j].ListInstances?
    decreases |fleet|
  {
    if fleet != [] {
      var init := fleet[..|fleet| - 1];
      NoFleetListingDuringVisits(p, t, init);
      var before := AfterFleet(p, t, init);
      var r := AfterInstance(p, before, fleet[|fleet| - 1]);
      assert r[..|before|] == before;
    }
  }
}
