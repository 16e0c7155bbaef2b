/** The publishing manager's store: the snapshot list and the cached id of
    the active snapshot, replaced by the create and archive handlers and by
    the periodic status update. The clock reading of each handler is the
    parameter `now`, and the generated snapshot id is the parameter `newId`. */
module PublishingManager {
  import opened Wrappers
  import opened Publishing

  /** `getActiveSnapshot(list)?.id || null`: an empty id is falsy and also
      gives `null`. */
  function ActiveId(snapshots: seq<Snapshot>, now: int): (r: Option<string>)
    ensures r.None? <==> GetActiveSnapshot(snapshots, now).None? || GetActiveSnapshot(snapshots, now).value.id == ""
    ensures r.Some? ==> r.value != "" && r.value == GetActiveSnapshot(snapshots, now).value.id
  {
    var active := GetActiveSnapshot(snapshots, now);
    if active.Some? && active.value.id != "" then Some(active.value.id) else None
  }

  /** The Archive button is offered only for snapshots that are neither
      archived nor active, that is, for scheduled ones. */
  predicate CanArchive(s: Snapshot)
    ensures CanArchive(s) <==> s.status == Scheduled
  {
    s.status != Archived && s.status != Active
  }

  /** The list `handleArchiveSnapshot` stores: the snapshots with the id
      become archived, everything else is kept. */
  function ArchiveById(snapshots: seq<Snapshot>, id: string): seq<Snapshot> {
    seq(|snapshots|, i requires 0 <= i < |snapshots| =>
      if snapshots[i].id == id then snapshots[i].(status := Archived) else snapshots[i])
  }

  /** Archiving touches only the snapshots with the id, and only their status. */
  lemma ArchiveByIdEffect(snapshots: seq<Snapshot>, id: string)
    ensures var r := ArchiveById(snapshots, id);
            && |r| == |snapshots|
            && (forall i :: 0 <= i < |r| && snapshots[i].id == id ==> r[i].status == Archived)
            && (forall i :: 0 <= i < |r| ==> r[i] == snapshots[i].(status := r[i].status))
            && (forall i :: 0 <= i < |r| && snapshots[i].id != id ==> r[i] == snapshots[i])
  {
  }

  /** After archiving an id, the active snapshot never carries that id. */
  lemma ArchivedIsNotActive(snapshots: seq<Snapshot>, id: string, now: int)
    ensures var a := GetActiveSnapshot(ArchiveById(snapshots, id), now);
            a.Some? ==> a.value.id != id
  {
    var r := ArchiveById(snapshots, id);
    var a := GetActiveSnapshot(r, now);
    if a.Some? {
      var i :| 0 <= i < |r| && r[i] == a.value;
    }
  }

  /** The new snapshot goes through the status rule with the rest of the
      list: it ends up scheduled exactly when its effective date is in the
      future. */
  lemma NewSnapshotScheduledIff(existing: seq<Snapshot>, s: Snapshot, now: int)
    requires s.status != Archived
    ensures var r := UpdateSnapshotStatuses(existing + [s], now);
            |r| == |existing| + 1 && (r[|existing|].status == Scheduled <==> s.effectiveDate > now)
  {
    StatusOutcome(existing + [s], now, |existing|);
  }

  /** What the status update does to a snapshot appended to the list: it
      keeps its version, is scheduled exactly when its date is in the
      future, and with unique ids leaves at most one active snapshot. */
  lemma AppendOutcome(existing: seq<Snapshot>, s: Snapshot, now: int)
    requires s.status != Archived
    ensures var r := UpdateSnapshotStatuses(existing + [s], now);
            && |r| == |existing| + 1
            && r[|existing|].version == s.version
            && (r[|existing|].status == Scheduled <==> s.effectiveDate > now)
            && (DistinctIds(existing + [r[|existing|]]) ==> AtMostOneActive(r))
  {
    var all := existing + [s];
    var r := UpdateSnapshotStatuses(all, now);
    NewSnapshotScheduledIff(existing, s, now);
    var last := r[|existing|];
    assert last == s.(status := last.status);
    if DistinctIds(existing + [last]) {
      DistinctIdsSameLast(existing, last, s);
      UpdateLeavesOneActive(all, now);
    }
  }

  /** The list `handleCreateSnapshot` stores: the snapshot `createSnapshot`
      makes from the list as it was is appended, and every status is
      recomputed. */
  function AfterCreate(existing: seq<Snapshot>, products: seq<Product>, effectiveDate: int, publishedBy: string,
                       notes: string, now: int, newId: string): (r: seq<Snapshot>)
    ensures |r| == |existing| + 1
    ensures r[|existing|].version == GenerateVersion(existing)
    ensures r[|existing|].status == Scheduled <==> effectiveDate > now
    ensures DistinctIds(existing + [r[|existing|]]) ==> AtMostOneActive(r)
  {
    var s := Publishing.CreateSnapshot(products, effectiveDate, publishedBy, notes, existing, now, newId);
    AppendOutcome(existing, s, now);
    UpdateSnapshotStatuses(existing + [s], now)
  }

  lemma AfterCreateIs(existing: seq<Snapshot>, products: seq<Product>, effectiveDate: int, publishedBy: string,
                      notes: string, now: int, newId: string, s: Snapshot)
    requires s == Publishing.CreateSnapshot(products, effectiveDate, publishedBy, notes, existing, now, newId)
    ensures AfterCreate(existing, products, effectiveDate, publishedBy, notes, now, newId) == UpdateSnapshotStatuses(existing + [s], now)
  {
  }

  /** Distinct ids depend only on the ids. */
  lemma DistinctIdsSameLast(existing: seq<Snapshot>, a: Snapshot, b: Snapshot)
    requires a.id == b.id && DistinctIds(existing + [a])
    ensures DistinctIds(existing + [b])
  {
    var withA, withB := existing + [a], existing + [b];
    assert forall k :: 0 <= k < |withB| ==> withB[k].id == withA[k].id;
  }

  /** A newly created snapshot that is in effect (and so starts out active)
      still ends up archived when an older snapshot in effect, with an id of
      its own, has a later effective date. */
  lemma NewSnapshotCanBeArchived(existing: seq<Snapshot>, s: Snapshot, now: int, k: nat)
    requires s.status != Archived && s.effectiveDate <= now
    requires k < |existing| && Eligible(existing[k], now) && existing[k].effectiveDate > s.effectiveDate
    requires forall i :: 0 <= i < |existing| ==> existing[i].id != s.id
    ensures UpdateSnapshotStatuses(existing + [s], now)[|existing|].status == Archived
  {
    var all := existing + [s];
    assert all[k] == existing[k];
    var active := GetActiveSnapshot(all, now);
    assert active.Some?;
    var j :| 0 <= j < |all| && all[j] == active.value;
    assert j != |existing|;
    assert all[j] == existing[j];
    StatusOutcome(all, now, |existing|);
  }

  /** The periodic update leaves the cached id as it was, so it can go stale:
      a snapshot that comes into effect is active in the list while the
      cache still says there is none. */
  lemma TickCanLeaveCacheStale()
    ensures var s := Snapshot("a", "1.0.0", 10, 0, Scheduled, "", "", 0, []);
            ActiveId(UpdateSnapshotStatuses([s], 20), 20) == Some("a")
            && UpdateSnapshotStatuses([s], 20)[0].status == Active
  {
    var s := Snapshot("a", "1.0.0", 10, 0, Scheduled, "", "", 0, []);
    assert GetActiveSnapshot([s], 20).Some?;
    ActiveAfterUpdate([s], 20);
  }

  class Manager {
    /** `publishedSnapshots.snapshots`. */
    var snapshots: seq<Snapshot>
    /** `publishedSnapshots.currentActiveSnapshotId`; `None` is `null`. */
    var currentActiveSnapshotId: Option<string>

    /** The store starts from the published-snapshots data file. */
    constructor(initial: seq<Snapshot>, activeId: Option<string>)
      ensures snapshots == initial && currentActiveSnapshotId == activeId
    {
      snapshots := initial;
      currentActiveSnapshotId := activeId;
    }

    /** The periodic `updateStatuses`: only the list is recomputed. */
    method Tick(now: int)
      modifies this
      ensures snapshots == UpdateSnapshotStatuses(old(snapshots), now)
      ensures currentActiveSnapshotId == old(currentActiveSnapshotId)
      ensures |snapshots| == |old(snapshots)|
    {
      snapshots := UpdateSnapshotStatuses(snapshots, now);
    }

    /** `handleCreateSnapshot`: the new snapshot, versioned from the list as
      it was, is appended, statuses are recomputed and the cache is reset. */
    method HandleCreateSnapshot(products: seq<Product>, effectiveDate: int, publishedBy: string,
                                notes: string, now: int, newId: string)
      modifies this
      ensures snapshots == AfterCreate(old(snapshots), products, effectiveDate, publishedBy, notes, now, newId)
      ensures currentActiveSnapshotId == ActiveId(snapshots, now)
    {
      var newSnapshot := Publishing.CreateSnapshot(products, effectiveDate, publishedBy, notes, snapshots, now, newId);
      var updatedSnapshots := snapshots + [newSnapshot];
      var updatedWithStatuses := UpdateSnapshotStatuses(updatedSnapshots, now);
      AfterCreateIs(snapshots, products, effectiveDate, publishedBy, notes, now, newId, newSnapshot);
      snapshots := updatedWithStatuses;
      currentActiveSnapshotId := ActiveId(updatedWithStatuses, now);
    }

    /** `handleArchiveSnapshot`: the snapshots with the id become archived,
      no status is recomputed, and the cache is reset from the new list. */
    method HandleArchiveSnapshot(snapshotId: string, now: int)
      modifies this
      ensures snapshots == ArchiveById(old(snapshots), snapshotId)
      ensures |snapshots| == |old(snapshots)|
      ensures forall i :: 0 <= i < |snapshots| && old(snapshots)[i].id != snapshotId
                ==> snapshots[i] == old(snapshots)[i]
      ensures forall i :: 0 <= i < |snapshots| && old(snapshots)[i].id == snapshotId
                ==> snapshots[i] == old(snapshots)[i].(status := Archived)
      ensures currentActiveSnapshotId == ActiveId(snapshots, now)
    {
      var updatedSnapshots := ArchiveById(snapshots, snapshotId);
      snapshots := updatedSnapshots;
      currentActiveSnapshotId := ActiveId(updatedSnapshots, now);
    }
  }
}
