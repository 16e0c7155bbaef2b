/** Catalog snapshots: semantic version bumping, the scheduled / active /
    archived status rule recomputed from effective dates and one `now`,
    selection of the active snapshot, statistics, and the style-code-keyed
    difference between two product lists.

    Instants (effective and published dates, `now`) are milliseconds since
    the epoch; the ISO strings of the data files are these instants. */
module Publishing {
  import opened Wrappers
  import opened Records
  import opened Json
  import Seqs
  import Text

  type Product = Obj

  /** `getStyleCode`: the first truthy of `styleCode` and `"Style Code"`, else "". */
  function StyleCode(p: Product): Json {
    var a := Get(p, "styleCode");
    var b := Get(p, "Style Code");
    if a.Some? && Truthy(a.value) then a.value
    else if b.Some? && Truthy(b.value) then b.value
    else JStr("")
  }

  /** The style code is a truthy value of one of the two keys, or "". */
  lemma StyleCodeSource(p: Product)
    ensures Truthy(StyleCode(p)) || StyleCode(p) == JStr("")
    ensures Truthy(StyleCode(p)) ==> Get(p, "styleCode") == Some(StyleCode(p)) || Get(p, "Style Code") == Some(StyleCode(p))
    ensures Get(p, "styleCode").Some? && Truthy(Get(p, "styleCode").value) ==> StyleCode(p) == Get(p, "styleCode").value
  {
  }

  datatype Status = Scheduled | Active | Archived

  datatype Snapshot = Snapshot(
    id: string,
    version: string,
    effectiveDate: int,
    publishedDate: int,
    status: Status,
    publishedBy: string,
    notes: string,
    productCount: nat,
    products: seq<Product>)

  // ---------------------------------------------------------------------
  // Versions

  /** `/^\d+\.\d+\.\d+$/.test(v)`: three non-empty digit runs separated by dots. */
  predicate IsVersion(v: string) {
    var parts := Text.Split(v, '.');
    |parts| == 3 && forall i :: 0 <= i < 3 ==> parts[i] != "" && Text.AllDigits(parts[i])
  }

  datatype Version = Version(major: nat, minor: nat, patch: nat)

  /** `v.split(".").map(Number)` for a well-formed version. */
  function ParseVersion(v: string): Version
    requires IsVersion(v)
  {
    var parts := Text.Split(v, '.');
    Version(Text.DecimalValue(parts[0]), Text.DecimalValue(parts[1]), Text.DecimalValue(parts[2]))
  }

  /** Lexicographic order on (major, minor, patch): the order of the sort's comparator. */
  predicate VersionLess(a: Version, b: Version) {
    a.major < b.major
    || (a.major == b.major && a.minor < b.minor)
    || (a.major == b.major && a.minor == b.minor && a.patch < b.patch)
  }

  /** `${major}.${minor}.${patch}`. */
  function FormatVersion(v: Version): string {
    Text.NatToDecimal(v.major) + "." + Text.NatToDecimal(v.minor) + "." + Text.NatToDecimal(v.patch)
  }

  lemma NoDotInDigits(s: string)
    requires Text.AllDigits(s)
    ensures '.' !in s
  {
  }

  /** The first version's text. */
  lemma FirstVersionText()
    ensures FormatVersion(Version(1, 0, 0)) == "1.0.0"
  {
    assert Text.NatToDecimal(1) == ['1'];
    assert Text.NatToDecimal(0) == ['0'];
  }

  /** Formatting a version gives a well-formed version string that parses back to it. */
  lemma FormatParseVersion(v: Version)
    ensures IsVersion(FormatVersion(v))
    ensures ParseVersion(FormatVersion(v)) == v
  {
    var a, b, c := Text.NatToDecimal(v.major), Text.NatToDecimal(v.minor), Text.NatToDecimal(v.patch);
    var parts := [a, b, c];
    assert Text.Join(parts, ".") == FormatVersion(v) by {
      assert parts[1..] == [b, c];
      assert [b, c][1..] == [c];
      assert Text.Join([b, c], ".") == b + "." + c;
    }
    NoDotInDigits(a);
    NoDotInDigits(b);
    NoDotInDigits(c);
    Text.SplitJoin(parts, '.');
    Text.DecimalRoundTrip(v.major);
    Text.DecimalRoundTrip(v.minor);
    Text.DecimalRoundTrip(v.patch);
  }

  /** The versions of the snapshots, in list order. */
  function Versions(snapshots: seq<Snapshot>): (vs: seq<string>)
    ensures |vs| == |snapshots|
    ensures forall i :: 0 <= i < |snapshots| ==> vs[i] == snapshots[i].version
  {
    seq(|snapshots|, i requires 0 <= i < |snapshots| => snapshots[i].version)
  }

  /** The well-formed versions, in list order. */
  function WellFormedVersions(snapshots: seq<Snapshot>): seq<string> {
    Seqs.Filter(Versions(snapshots), IsVersion)
  }

  /** The largest version of a non-empty list: the first element after the
      descending sort. Equal versions are equal triples, so which of them the
      sort puts first does not matter. */
  function Greatest(vs: seq<Version>): (g: Version)
    requires |vs| > 0
    ensures g in vs
    ensures forall i :: 0 <= i < |vs| ==> vs[i] == g || VersionLess(vs[i], g)
    decreases |vs|
  {
    if |vs| == 1 then vs[0]
    else
      var m := Greatest(vs[1..]);
      assert forall i :: 1 <= i < |vs| ==> vs[i] == vs[1..][i - 1];
      if VersionLess(vs[0], m) then m else vs[0]
  }

  /** The parsed well-formed versions, in list order. */
  function ParsedVersions(existing: seq<Snapshot>): (ps: seq<Version>)
    ensures |ps| == |WellFormedVersions(existing)|
  {
    var vs := WellFormedVersions(existing);
    seq(|vs|, i requires 0 <= i < |vs| => ParseVersion(vs[i]))
  }

  /** `generateVersion`: "1.0.0" when there is no well-formed version, else
      the greatest one with its patch number incremented. */
  function GenerateVersion(existing: seq<Snapshot>): (r: string)
    ensures IsVersion(r)
  {
    var ps := ParsedVersions(existing);
    if |existing| == 0 || |ps| == 0 then
      FirstVersionText();
      FormatParseVersion(Version(1, 0, 0));
      "1.0.0"
    else
      var g := Greatest(ps);
      FormatParseVersion(Bump(g));
      FormatVersion(Bump(g))
  }

  /** With no well-formed version the first version is "1.0.0". */
  lemma GenerateVersionFirst(existing: seq<Snapshot>)
    requires forall i :: 0 <= i < |existing| ==> !IsVersion(existing[i].version)
    ensures GenerateVersion(existing) == "1.0.0"
  {
  }

  /** A parsed version belongs to a well-formed version of some snapshot, and back. */
  lemma ParsedVersionsOf(existing: seq<Snapshot>)
    ensures forall i :: 0 <= i < |existing| && IsVersion(existing[i].version)
              ==> ParseVersion(existing[i].version) in ParsedVersions(existing)
    ensures forall j :: 0 <= j < |ParsedVersions(existing)|
              ==> exists i :: 0 <= i < |existing| && IsVersion(existing[i].version)
                    && ParseVersion(existing[i].version) == ParsedVersions(existing)[j]
  {
    var vs := WellFormedVersions(existing);
    var all := Versions(existing);
    var ps := ParsedVersions(existing);
    forall i | 0 <= i < |existing| && IsVersion(existing[i].version)
      ensures ParseVersion(existing[i].version) in ps
    {
      assert all[i] in vs;
      var j :| 0 <= j < |vs| && vs[j] == all[i];
      assert ps[j] == ParseVersion(existing[i].version);
    }
    forall j | 0 <= j < |ps|
      ensures exists i :: 0 <= i < |existing| && IsVersion(existing[i].version)
                && ParseVersion(existing[i].version) == ps[j]
    {
      assert vs[j] in all;
      var i :| 0 <= i < |all| && all[i] == vs[j];
      assert IsVersion(existing[i].version) && ParseVersion(existing[i].version) == ps[j];
    }
  }

  /** The new version is strictly above every well-formed existing version. */
  lemma GenerateVersionAboveAll(existing: seq<Snapshot>)
    ensures forall i :: 0 <= i < |existing| && IsVersion(existing[i].version)
              ==> VersionLess(ParseVersion(existing[i].version), ParseVersion(GenerateVersion(existing)))
  {
    ParsedVersionsOf(existing);
    var ps := ParsedVersions(existing);
    if |ps| > 0 {
      var g := Greatest(ps);
      FormatParseVersion(Bump(g));
      assert |existing| > 0;
      assert GenerateVersion(existing) == FormatVersion(Bump(g));
      forall i | 0 <= i < |existing| && IsVersion(existing[i].version)
        ensures VersionLess(ParseVersion(existing[i].version), Bump(g))
      {
        var v := ParseVersion(existing[i].version);
        assert v in ps;
        var j :| 0 <= j < |ps| && ps[j] == v;
        assert v == g || VersionLess(v, g);
      }
    }
  }

  /** When some version is well formed, the new one is such a version with its
      patch number incremented. */
  lemma GenerateVersionBumps(existing: seq<Snapshot>, k: int)
    requires 0 <= k < |existing| && IsVersion(existing[k].version)
    ensures exists i :: 0 <= i < |existing| && IsVersion(existing[i].version)
              && ParseVersion(GenerateVersion(existing)) == Bump(ParseVersion(existing[i].version))
  {
    ParsedVersionsOf(existing);
    var ps := ParsedVersions(existing);
    assert ParseVersion(existing[k].version) in ps;
    var g := Greatest(ps);
    FormatParseVersion(Bump(g));
    assert GenerateVersion(existing) == FormatVersion(Bump(g));
    var j :| 0 <= j < |ps| && ps[j] == g;
    var i :| 0 <= i < |existing| && IsVersion(existing[i].version) && ParseVersion(existing[i].version) == ps[j];
  }

  function Bump(v: Version): Version {
    Version(v.major, v.minor, v.patch + 1)
  }

  // ---------------------------------------------------------------------
  // Creating a snapshot

  /** `determineInitialStatus`. */
  function DetermineInitialStatus(effectiveDate: int, now: int): (s: Status)
    ensures s != Archived
    ensures s == Scheduled <==> effectiveDate > now
  {
    if effectiveDate > now then Scheduled else Active
  }

  /** `createSnapshot`; the generated id and the clock are parameters, and the
      JSON round trip that deep-copies the products gives equal values back. */
  function CreateSnapshot(products: seq<Product>, effectiveDate: int, publishedBy: string,
                          notes: string, existing: seq<Snapshot>, now: int, id: string): (s: Snapshot)
    ensures s.id == id && s.effectiveDate == effectiveDate && s.publishedDate == now
    ensures s.publishedBy == publishedBy && s.notes == notes
    ensures s.products == products && s.productCount == |products|
    ensures s.version == GenerateVersion(existing) && IsVersion(s.version)
    ensures s.status == Scheduled <==> effectiveDate > now
    ensures s.status == Active <==> effectiveDate <= now
  {
    Snapshot(id, GenerateVersion(existing), effectiveDate, now,
             DetermineInitialStatus(effectiveDate, now), publishedBy, notes, |products|, products)
  }

  // ---------------------------------------------------------------------
  // The active snapshot

  /** A snapshot that may be active at `now`: in effect and not archived. */
  predicate Eligible(s: Snapshot, now: int) {
    s.effectiveDate <= now && s.status != Archived
  }

  function EligibleAt(now: int): Snapshot -> bool {
    s => Eligible(s, now)
  }

  /** Sort key that puts the most recent effective date first. */
  function Recency(s: Snapshot): int {
    -s.effectiveDate
  }

  /** The first element of a list sorted by `Recency` has the latest date of all. */
  lemma SortedFirstIsLatest(e: seq<Snapshot>, x: Snapshot)
    requires x in e
    ensures |Seqs.SortBy(e, Recency)| > 0
    ensures x.effectiveDate <= Seqs.SortBy(e, Recency)[0].effectiveDate
  {
    var sorted := Seqs.SortBy(e, Recency);
    assert x in multiset(e);
    assert x in multiset(sorted);
    var j :| 0 <= j < |sorted| && sorted[j] == x;
    if j > 0 {
      assert Recency(sorted[0]) <= Recency(sorted[j]);
    }
  }

  /** `getActiveSnapshot`: among the eligible snapshots, the first after a
      stable sort by effective date, most recent first; `None` for `null`. */
  function GetActiveSnapshot(snapshots: seq<Snapshot>, now: int): (r: Option<Snapshot>)
    ensures r.None? <==> forall i :: 0 <= i < |snapshots| ==> !Eligible(snapshots[i], now)
    ensures r.Some? ==> r.value in snapshots && Eligible(r.value, now)
    ensures r.Some? ==> forall i :: 0 <= i < |snapshots| && Eligible(snapshots[i], now)
                          ==> snapshots[i].effectiveDate <= r.value.effectiveDate
  {
    var e := Seqs.Filter(snapshots, EligibleAt(now));
    if |e| == 0 then None
    else
      var sorted := Seqs.SortBy(e, Recency);
      assert sorted[0] in multiset(e) by { assert sorted[0] in multiset(sorted); }
      assert forall i :: 0 <= i < |snapshots| && Eligible(snapshots[i], now)
               ==> snapshots[i].effectiveDate <= sorted[0].effectiveDate by {
        forall i | 0 <= i < |snapshots| && Eligible(snapshots[i], now)
          ensures snapshots[i].effectiveDate <= sorted[0].effectiveDate
        {
          assert EligibleAt(now)(snapshots[i]);
          SortedFirstIsLatest(e, snapshots[i]);
        }
      }
      Some(sorted[0])
  }

  /** The active snapshot is the head of the sorted eligible snapshots. */
  lemma ActiveIsSortedHead(snapshots: seq<Snapshot>, now: int)
    requires GetActiveSnapshot(snapshots, now).Some?
    ensures var e := Seqs.Filter(snapshots, EligibleAt(now));
            |e| > 0 && GetActiveSnapshot(snapshots, now).value == Seqs.SortBy(e, Recency)[0]
  {
  }

  /** An eligible snapshot whose date differs from the head's is older. */
  lemma OtherDateIsOlder(e: seq<Snapshot>, x: Snapshot)
    requires x in e
    requires Recency(x) != Recency(Seqs.SortBy(e, Recency)[0])
    ensures x.effectiveDate < Seqs.SortBy(e, Recency)[0].effectiveDate
  {
    SortedFirstIsLatest(e, x);
  }

  /** Ties go to the earliest snapshot in list order: the active snapshot is
      the first eligible one with the latest effective date. */
  lemma ActiveIsFirstLatest(snapshots: seq<Snapshot>, now: int)
    requires GetActiveSnapshot(snapshots, now).Some?
    ensures exists i :: 0 <= i < |snapshots| && snapshots[i] == GetActiveSnapshot(snapshots, now).value
              && forall j :: 0 <= j < i && Eligible(snapshots[j], now)
                   ==> snapshots[j].effectiveDate < snapshots[i].effectiveDate
  {
    var keep := EligibleAt(now);
    var e := Seqs.Filter(snapshots, keep);
    ActiveIsSortedHead(snapshots, now);
    var sorted := Seqs.SortBy(e, Recency);
    var a := sorted[0];
    var k := Recency(a);
    Seqs.SortByStable(e, Recency, k);
    assert Seqs.WithKey(sorted, Recency, k)[0] == a;
    Seqs.WithKeyFilterFirst(snapshots, keep, Recency, k);
    var i :| 0 <= i < |snapshots| && snapshots[i] == Seqs.WithKey(e, Recency, k)[0]
          && keep(snapshots[i]) && Recency(snapshots[i]) == k
          && Seqs.NoneBefore(snapshots, keep, Recency, k, i);
    assert snapshots[i] == a;
    forall j | 0 <= j < i && Eligible(snapshots[j], now)
      ensures snapshots[j].effectiveDate < a.effectiveDate
    {
      assert keep(snapshots[j]);
      assert Recency(snapshots[j]) != k;
      OtherDateIsOlder(e, snapshots[j]);
    }
  }

  // ---------------------------------------------------------------------
  // Recomputing statuses

  /** The new status of one snapshot, given the active one. */
  function Recompute(s: Snapshot, active: Option<Snapshot>, now: int): Snapshot {
    if s.status == Archived then s
    else if s.effectiveDate > now then s.(status := Scheduled)
    else if active.Some? && s.id == active.value.id then s.(status := Active)
    else s.(status := Archived)
  }

  /** `updateSnapshotStatuses`: length, order and every field but `status`
      are kept, and archived snapshots are returned unchanged. */
  function UpdateSnapshotStatuses(snapshots: seq<Snapshot>, now: int): (r: seq<Snapshot>)
    ensures |r| == |snapshots|
    ensures forall i :: 0 <= i < |r| ==> r[i] == snapshots[i].(status := r[i].status)
    ensures forall i :: 0 <= i < |r| && snapshots[i].status == Archived ==> r[i] == snapshots[i]
  {
    var active := GetActiveSnapshot(snapshots, now);
    seq(|snapshots|, i requires 0 <= i < |snapshots| => Recompute(snapshots[i], active, now))
  }

  /** The status rule: future snapshots are scheduled, the snapshots carrying
      the active snapshot's id are active, every other past one is archived. */
  lemma StatusOutcome(snapshots: seq<Snapshot>, now: int, i: int)
    requires 0 <= i < |snapshots| && snapshots[i].status != Archived
    ensures var r := UpdateSnapshotStatuses(snapshots, now);
            var active := GetActiveSnapshot(snapshots, now);
            && (r[i].status == Scheduled <==> snapshots[i].effectiveDate > now)
            && (r[i].status == Active <==> snapshots[i].effectiveDate <= now
                                           && active.Some? && snapshots[i].id == active.value.id)
            && (r[i].status == Archived <==> snapshots[i].effectiveDate <= now
                                             && !(active.Some? && snapshots[i].id == active.value.id))
  {
  }

  /** Every snapshot that ends up active carries the active snapshot's id,
      and the active snapshot itself does end up active. */
  lemma ActiveIsChosen(snapshots: seq<Snapshot>, now: int)
    ensures var r := UpdateSnapshotStatuses(snapshots, now);
            var active := GetActiveSnapshot(snapshots, now);
            && (forall i :: 0 <= i < |r| && r[i].status == Active
                  ==> active.Some? && r[i].id == active.value.id)
            && (active.Some? ==> exists i :: 0 <= i < |r| && r[i] == active.value.(status := Active))
  {
    var r := UpdateSnapshotStatuses(snapshots, now);
    var active := GetActiveSnapshot(snapshots, now);
    if active.Some? {
      var i :| 0 <= i < |snapshots| && snapshots[i] == active.value;
      assert r[i] == Recompute(snapshots[i], active, now);
    }
  }

  /** Ids are unique. */
  predicate DistinctIds(snapshots: seq<Snapshot>) {
    forall i, j :: 0 <= i < j < |snapshots| ==> snapshots[i].id != snapshots[j].id
  }

  predicate AtMostOneActive(snapshots: seq<Snapshot>) {
    forall i, j :: (0 <= i < |snapshots| && 0 <= j < |snapshots|
      && snapshots[i].status == Active && snapshots[j].status == Active) ==> i == j
  }

  /** With unique ids, at most one snapshot is active after the update. */
  lemma UpdateLeavesOneActive(snapshots: seq<Snapshot>, now: int)
    requires DistinctIds(snapshots)
    ensures AtMostOneActive(UpdateSnapshotStatuses(snapshots, now))
  {
    var r := UpdateSnapshotStatuses(snapshots, now);
    ActiveIsChosen(snapshots, now);
    forall i, j | 0 <= i < |r| && 0 <= j < |r| && r[i].status == Active && r[j].status == Active
      ensures i == j
    {
      assert r[i].id == snapshots[i].id && r[j].id == snapshots[j].id;
    }
  }

  /** Two snapshots sharing an id can both end up active. */
  lemma DuplicateIdsCanBothBeActive()
    ensures var s := Snapshot("a", "1.0.0", 0, 0, Scheduled, "", "", 0, []);
            var r := UpdateSnapshotStatuses([s, s], 1);
            r[0].status == Active && r[1].status == Active
  {
    var s := Snapshot("a", "1.0.0", 0, 0, Scheduled, "", "", 0, []);
    var active := GetActiveSnapshot([s, s], 1);
    assert active.Some?;
  }

  /** After an update, the active snapshot has the same id as before it. */
  lemma ActiveAfterUpdate(snapshots: seq<Snapshot>, now: int)
    ensures var r := UpdateSnapshotStatuses(snapshots, now);
            var before := GetActiveSnapshot(snapshots, now);
            var after := GetActiveSnapshot(r, now);
            && (before.None? <==> after.None?)
            && (before.Some? ==> after.value.id == before.value.id)
  {
    if GetActiveSnapshot(snapshots, now).None? {
      NoActiveAfterUpdate(snapshots, now);
    } else {
      SameActiveAfterUpdate(snapshots, now);
    }
  }

  lemma NoActiveAfterUpdate(snapshots: seq<Snapshot>, now: int)
    requires GetActiveSnapshot(snapshots, now).None?
    ensures GetActiveSnapshot(UpdateSnapshotStatuses(snapshots, now), now).None?
  {
    var r := UpdateSnapshotStatuses(snapshots, now);
    forall i | 0 <= i < |r| ensures !Eligible(r[i], now) {
      assert !Eligible(snapshots[i], now);
    }
  }

  lemma SameActiveAfterUpdate(snapshots: seq<Snapshot>, now: int)
    requires GetActiveSnapshot(snapshots, now).Some?
    ensures var after := GetActiveSnapshot(UpdateSnapshotStatuses(snapshots, now), now);
            after.Some? && after.value.id == GetActiveSnapshot(snapshots, now).value.id
  {
    var r := UpdateSnapshotStatuses(snapshots, now);
    assert forall i :: 0 <= i < |r| ==> r[i] == Recompute(snapshots[i], GetActiveSnapshot(snapshots, now), now);
    KeepsActiveId(snapshots, r, now, GetActiveSnapshot(snapshots, now), GetActiveSnapshot(r, now));
  }

  /** The argument of `SameActiveAfterUpdate`, about any choice of active
      snapshot before and after that has the properties of `GetActiveSnapshot`. */
  lemma KeepsActiveId(snapshots: seq<Snapshot>, r: seq<Snapshot>, now: int,
                      before: Option<Snapshot>, after: Option<Snapshot>)
    requires |r| == |snapshots|
    requires forall i :: 0 <= i < |r| ==> r[i] == Recompute(snapshots[i], before, now)
    requires before.Some? && before.value in snapshots && Eligible(before.value, now)
    requires after.None? <==> forall i :: 0 <= i < |r| ==> !Eligible(r[i], now)
    requires after.Some? ==> after.value in r && Eligible(after.value, now)
    ensures after.Some? && after.value.id == before.value.id
  {
    var k :| 0 <= k < |snapshots| && snapshots[k] == before.value;
    assert r[k] == Recompute(snapshots[k], before, now);
    assert Eligible(r[k], now);
    var j :| 0 <= j < |r| && r[j] == after.value;
    assert r[j] == Recompute(snapshots[j], before, now);
  }

  /** With one `now`, recomputing the statuses a second time changes nothing. */
  lemma UpdateIdempotent(snapshots: seq<Snapshot>, now: int)
    ensures UpdateSnapshotStatuses(UpdateSnapshotStatuses(snapshots, now), now)
         == UpdateSnapshotStatuses(snapshots, now)
  {
    var r := UpdateSnapshotStatuses(snapshots, now);
    var r2 := UpdateSnapshotStatuses(r, now);
    var before := GetActiveSnapshot(snapshots, now);
    var after := GetActiveSnapshot(r, now);
    ActiveAfterUpdate(snapshots, now);
    assert forall i :: 0 <= i < |r| ==> r[i] == Recompute(snapshots[i], before, now);
    assert forall i :: 0 <= i < |r| ==> r2[i] == Recompute(r[i], after, now);
    RecomputeTwice(snapshots, r, r2, now, before, after);
  }

  /** Recomputing with an active snapshot of the same id is the identity on
      recomputed statuses. */
  lemma RecomputeTwice(snapshots: seq<Snapshot>, r: seq<Snapshot>, r2: seq<Snapshot>, now: int,
                       before: Option<Snapshot>, after: Option<Snapshot>)
    requires |r| == |snapshots| && |r2| == |r|
    requires forall i :: 0 <= i < |r| ==> r[i] == Recompute(snapshots[i], before, now)
    requires forall i :: 0 <= i < |r| ==> r2[i] == Recompute(r[i], after, now)
    requires before.None? <==> after.None?
    requires before.Some? ==> after.value.id == before.value.id
    ensures r2 == r
  {
    forall i | 0 <= i < |r| ensures r2[i] == r[i] {
      assert r[i] == Recompute(snapshots[i], before, now);
    }
  }

  // ---------------------------------------------------------------------
  // Statistics

  function StatusIs(st: Status): Snapshot -> bool {
    (s: Snapshot) => s.status == st
  }

  function EffectiveDate(s: Snapshot): int {
    s.effectiveDate
  }

  /** `SnapshotStats`; `None` stands for a `null` next scheduled date. */
  datatype Stats = Stats(
    totalSnapshots: nat,
    scheduledCount: nat,
    activeCount: nat,
    archivedCount: nat,
    latestVersion: string,
    nextScheduledDate: Option<int>)

  /** `getSnapshotStats`. */
  function GetSnapshotStats(snapshots: seq<Snapshot>): (st: Stats)
    ensures st.totalSnapshots == |snapshots|
  {
    var scheduled := Seqs.Filter(snapshots, StatusIs(Scheduled));
    var active := Seqs.Filter(snapshots, StatusIs(Active));
    var archived := Seqs.Filter(snapshots, StatusIs(Archived));
    Stats(|snapshots|, |scheduled|, |active|, |archived|,
          LatestVersion(snapshots), NextScheduledDate(snapshots))
  }

  /** The `latestVersion` of the statistics: the last well-formed version. */
  function LatestVersion(snapshots: seq<Snapshot>): string {
    var versions := WellFormedVersions(snapshots);
    if |versions| > 0 then versions[|versions| - 1] else "0.0.0"
  }

  /** The `nextScheduledDate` of the statistics: the date at the head of the
      scheduled snapshots sorted by effective date. */
  function NextScheduledDate(snapshots: seq<Snapshot>): Option<int> {
    var scheduled := Seqs.Filter(snapshots, StatusIs(Scheduled));
    if |scheduled| > 0 then Some(Seqs.SortBy(scheduled, EffectiveDate)[0].effectiveDate) else None
  }

  lemma {:induction false} StatusCountsAddUp(snapshots: seq<Snapshot>)
    ensures |Seqs.Filter(snapshots, StatusIs(Scheduled))| + |Seqs.Filter(snapshots, StatusIs(Active))|
            + |Seqs.Filter(snapshots, StatusIs(Archived))| == |snapshots|
    decreases |snapshots|
  {
    if snapshots != [] {
      StatusCountsAddUp(snapshots[1..]);
    }
  }

  /** Every snapshot is counted under exactly one status. */
  lemma StatsPartition(snapshots: seq<Snapshot>)
    ensures var st := GetSnapshotStats(snapshots);
            st.scheduledCount + st.activeCount + st.archivedCount == st.totalSnapshots
  {
    StatusCountsAddUp(snapshots);
  }

  /** The head of a list sorted by effective date is one of its elements and
      has the earliest date of all. */
  lemma SortedHeadIsEarliest(e: seq<Snapshot>, x: Snapshot)
    requires x in e
    ensures |Seqs.SortBy(e, EffectiveDate)| > 0
    ensures Seqs.SortBy(e, EffectiveDate)[0] in e
    ensures Seqs.SortBy(e, EffectiveDate)[0].effectiveDate <= x.effectiveDate
  {
    var sorted := Seqs.SortBy(e, EffectiveDate);
    assert sorted[0] in multiset(e) by { assert sorted[0] in multiset(sorted); }
    assert x in multiset(sorted);
    var j :| 0 <= j < |sorted| && sorted[j] == x;
    if j > 0 { assert EffectiveDate(sorted[0]) <= EffectiveDate(sorted[j]); }
  }

  /** The next scheduled date is `null` exactly when nothing is scheduled, and
      otherwise the earliest effective date of a scheduled snapshot. */
  lemma StatsNextScheduled(snapshots: seq<Snapshot>)
    ensures var next := NextScheduledDate(snapshots);
            && (next.None? <==> forall i :: 0 <= i < |snapshots| ==> snapshots[i].status != Scheduled)
            && (next.Some? ==> exists i :: 0 <= i < |snapshots| && snapshots[i].status == Scheduled
                                            && snapshots[i].effectiveDate == next.value)
            && (next.Some? ==> forall i :: (0 <= i < |snapshots| && snapshots[i].status == Scheduled)
                                 ==> next.value <= snapshots[i].effectiveDate)
  {
    var keep := StatusIs(Scheduled);
    var scheduled := Seqs.Filter(snapshots, keep);
    forall i | 0 <= i < |snapshots| && snapshots[i].status == Scheduled
      ensures snapshots[i] in scheduled
    {
      assert keep(snapshots[i]);
    }
    if |scheduled| > 0 {
      var head := Seqs.SortBy(scheduled, EffectiveDate)[0];
      assert NextScheduledDate(snapshots) == Some(head.effectiveDate);
      forall i | 0 <= i < |snapshots| && snapshots[i].status == Scheduled
        ensures head.effectiveDate <= snapshots[i].effectiveDate
      {
        SortedHeadIsEarliest(scheduled, snapshots[i]);
      }
      SortedHeadIsEarliest(scheduled, scheduled[0]);
      var k :| 0 <= k < |scheduled| && scheduled[k] == head;
      assert scheduled[k] in snapshots && keep(scheduled[k]);
    }
  }

  /** The latest version is the last well-formed version in list order, and
      "0.0.0" when no version is well formed. */
  lemma StatsLatestVersion(snapshots: seq<Snapshot>)
    ensures var k := Seqs.LastKept(Versions(snapshots), IsVersion);
            LatestVersion(snapshots) == if k < 0 then "0.0.0" else snapshots[k].version
  {
    if WellFormedVersions(snapshots) != [] {
      Seqs.FilterLast(Versions(snapshots), IsVersion);
    }
  }

  // ---------------------------------------------------------------------
  // Comparing two product lists

  /** The style codes of a product list, in list order. */
  function Codes(ps: seq<Product>): (cs: seq<Json>)
    ensures |cs| == |ps|
    ensures forall i :: 0 <= i < |ps| ==> cs[i] == StyleCode(ps[i])
  {
    seq(|ps|, i requires 0 <= i < |ps| => StyleCode(ps[i]))
  }

  /** A JavaScript `Map` from style code to product: its keys in insertion
      order and its entries. */
  datatype CodeMap = CodeMap(keys: seq<Json>, entries: map<Json, Product>)

  /** `new Map(ps.map((p) => [getStyleCode(p), p]))`: a repeated code keeps
      the place of its first occurrence and takes the last product. */
  function IndexByCode(ps: seq<Product>): (m: CodeMap)
    decreases |ps|
  {
    if ps == [] then CodeMap([], map[])
    else
      var n := |ps| - 1;
      var m := IndexByCode(ps[..n]);
      var c := StyleCode(ps[n]);
      CodeMap(if c in m.entries then m.keys else m.keys + [c], m.entries[c := ps[n]])
  }

  /** Each product in the map is filed under its own style code. */
  lemma {:induction false} IndexSound(ps: seq<Product>)
    ensures forall c :: c in IndexByCode(ps).entries ==> StyleCode(IndexByCode(ps).entries[c]) == c
    decreases |ps|
  {
    if ps != [] {
      IndexSound(ps[..|ps| - 1]);
    }
  }

  lemma CodesOfPrefix(ps: seq<Product>, n: nat)
    requires n <= |ps|
    ensures Codes(ps[..n]) == Codes(ps)[..n]
  {
  }

  /** The map's entries are exactly the codes of the list. */
  lemma {:induction false} IndexEntries(ps: seq<Product>)
    ensures forall c :: c in IndexByCode(ps).entries <==> c in Codes(ps)
    decreases |ps|
  {
    if ps != [] {
      var n := |ps| - 1;
      var prev := IndexByCode(ps[..n]).entries;
      var c := StyleCode(ps[n]);
      IndexEntries(ps[..n]);
      CodesOfPrefix(ps, n);
      var cs := Codes(ps);
      Seqs.TakeSnoc(cs, n);
      assert cs[..n + 1] == cs;
      assert IndexByCode(ps).entries == prev[c := ps[n]];
      Seqs.KeysSnoc(prev, cs[..n], c, ps[n]);
    }
  }

  /** The map's keys are the codes in order of first occurrence, and they are
      exactly its entries. */
  lemma {:induction false} IndexKeys(ps: seq<Product>)
    ensures IndexByCode(ps).keys == Seqs.FirstOccurrences(Codes(ps))
    ensures forall c :: c in IndexByCode(ps).keys <==> c in IndexByCode(ps).entries
    decreases |ps|
  {
    if ps != [] {
      var n := |ps| - 1;
      IndexKeys(ps[..n]);
      CodesOfPrefix(ps, n);
      var cs := Codes(ps);
      assert cs[..|cs| - 1] == Codes(ps[..n]);
      assert cs[|cs| - 1] == StyleCode(ps[n]);
    }
  }

  /** The product that stands for code `c` in the map of `ps`. */
  function Representative(ps: seq<Product>, c: Json): Product
    requires c in Codes(ps)
  {
    IndexEntries(ps);
    IndexByCode(ps).entries[c]
  }

  /** With repeated style codes, the last product with a code stands for it. */
  lemma RepresentativeIsLast(ps: seq<Product>, i: int)
    requires 0 <= i < |ps|
    requires forall j :: i < j < |ps| ==> StyleCode(ps[j]) != StyleCode(ps[i])
    ensures StyleCode(ps[i]) in Codes(ps)
    ensures Representative(ps, StyleCode(ps[i])) == ps[i]
  {
    assert Codes(ps)[i] == StyleCode(ps[i]);
    IndexLast(ps, i);
  }

  lemma {:induction false} IndexLast(ps: seq<Product>, i: int)
    requires 0 <= i < |ps|
    requires forall j :: i < j < |ps| ==> StyleCode(ps[j]) != StyleCode(ps[i])
    ensures StyleCode(ps[i]) in IndexByCode(ps).entries
    ensures IndexByCode(ps).entries[StyleCode(ps[i])] == ps[i]
    decreases |ps|
  {
    var n := |ps| - 1;
    var c, cn := StyleCode(ps[i]), StyleCode(ps[n]);
    var prefix := ps[..n];
    var before := IndexByCode(prefix).entries;
    assert IndexByCode(ps).entries == before[cn := ps[n]];
    if i != n {
      assert prefix[i] == ps[i];
      assert cn != c;
      forall j | i < j < |prefix| ensures StyleCode(prefix[j]) != StyleCode(prefix[i]) {
        assert prefix[j] == ps[j];
      }
      IndexLast(prefix, i);
      assert c in before && before[c] == ps[i];
    }
  }


  /** `String(key)` values of the two products, first occurrences first:
      `new Set([...Object.keys(p1), ...Object.keys(p2)])`. */
  function KeysToCheck(p1: Product, p2: Product): seq<string> {
    Seqs.FirstOccurrences(Keys(p1) + Keys(p2))
  }

  /** The two products read differently at `k` (a missing key reads as
      `undefined`; `JSON.stringify` comparison is equality of values). */
  function Differs(p1: Product, p2: Product): string -> bool {
    k => Get(p1, k) != Get(p2, k)
  }

  lemma DiffersAt(p1: Product, p2: Product, k: string)
    ensures Differs(p1, p2)(k) <==> Get(p1, k) != Get(p2, k)
  {
  }

  /** The result of `detectProductChanges`. */
  function Changes(p1: Product, p2: Product): seq<string> {
    Seqs.Filter(KeysToCheck(p1, p2), Differs(p1, p2))
  }

  /** `detectProductChanges`: the keys, of either product, at which they differ. */
  method DetectProductChanges(product1: Product, product2: Product) returns (changes: seq<string>)
    ensures changes == Changes(product1, product2)
  {
    changes := [];
    var keysToCheck := Seqs.FirstOccurrences(Keys(product1) + Keys(product2));
    ghost var differs := Differs(product1, product2);
    var i := 0;
    while i < |keysToCheck|
      invariant 0 <= i <= |keysToCheck|
      invariant changes == Seqs.Filter(keysToCheck[..i], differs)
    {
      var key := keysToCheck[i];
      var val1 := Get(product1, key);
      var val2 := Get(product2, key);
      DiffersAt(product1, product2, key);
      ghost var before := changes;
      if val1 != val2 {
        changes := changes + [key];
      }
      Seqs.FilterStep(keysToCheck, i, differs, before, val1 != val2);
      i := i + 1;
    }
    assert keysToCheck[..i] == keysToCheck;
  }

  /** A key is reported exactly when the two products read differently there. */
  lemma ChangesIff(p1: Product, p2: Product, k: string)
    ensures k in Changes(p1, p2) <==> Get(p1, k) != Get(p2, k)
  {
    var all := Keys(p1) + Keys(p2);
    var ks := KeysToCheck(p1, p2);
    if Get(p1, k) != Get(p2, k) {
      assert k in all by {
        if Get(p1, k).Some? { assert k in Keys(p1); } else { assert k in Keys(p2); }
      }
      var i :| 0 <= i < |all| && all[i] == k;
      assert all[i] in ks;
      var j :| 0 <= j < |ks| && ks[j] == k;
      assert Differs(p1, p2)(ks[j]);
    }
    if k in Changes(p1, p2) {
      var j :| 0 <= j < |Changes(p1, p2)| && Changes(p1, p2)[j] == k;
    }
  }

  /** Whether two products differ does not depend on their order. */
  lemma ChangesEmptySymmetric(p1: Product, p2: Product)
    ensures Changes(p1, p2) == [] <==> Changes(p2, p1) == []
  {
    if Changes(p1, p2) != [] {
      var k := Changes(p1, p2)[0];
      ChangesIff(p1, p2, k);
      ChangesIff(p2, p1, k);
    }
    if Changes(p2, p1) != [] {
      var k := Changes(p2, p1)[0];
      ChangesIff(p1, p2, k);
      ChangesIff(p2, p1, k);
    }
  }

  /** A product never differs from itself. */
  lemma ChangesSelf(p: Product)
    ensures Changes(p, p) == []
  {
    if Changes(p, p) != [] {
      ChangesIff(p, p, Changes(p, p)[0]);
    }
  }

  /** One entry of `modified`. */
  datatype Modification = Modification(styleCode: Json, changes: seq<string>)

  /** `ProductDiff`. */
  datatype ProductDiff = ProductDiff(added: seq<Product>, removed: seq<Product>, modified: seq<Modification>)

  predicate Covers(keys: seq<Json>, entries: map<Json, Product>) {
    forall c :: c in keys ==> c in entries
  }

  /** The products under `keys` whose code `other` lacks, in key order. */
  function Unmatched(keys: seq<Json>, entries: map<Json, Product>, other: map<Json, Product>): seq<Product>
    requires Covers(keys, entries)
    decreases |keys|
  {
    if keys == [] then []
    else
      var n := |keys| - 1;
      Unmatched(keys[..n], entries, other) + (if keys[n] in other then [] else [entries[keys[n]]])
  }

  /** The codes under `keys` that `other` also has, with the changes between
      the two products, when there are any. */
  function Modified(keys: seq<Json>, entries: map<Json, Product>, other: map<Json, Product>): seq<Modification>
    requires Covers(keys, entries)
    decreases |keys|
  {
    if keys == [] then []
    else
      var n := |keys| - 1;
      var c := keys[n];
      Modified(keys[..n], entries, other)
      + (if c in other && Changes(entries[c], other[c]) != [] then [Modification(c, Changes(entries[c], other[c]))] else [])
  }

  lemma IndexCovers(ps: seq<Product>)
    ensures Covers(IndexByCode(ps).keys, IndexByCode(ps).entries)
  {
    IndexKeys(ps);
  }

  /** The result of `compareProducts`. */
  function Compare(wip: seq<Product>, published: seq<Product>): ProductDiff {
    var w := IndexByCode(wip);
    var p := IndexByCode(published);
    IndexCovers(wip);
    IndexCovers(published);
    ProductDiff(Unmatched(w.keys, w.entries, p.entries),
                Unmatched(p.keys, p.entries, w.entries),
                Modified(w.keys, w.entries, p.entries))
  }

  lemma UnmatchedStep(keys: seq<Json>, entries: map<Json, Product>, other: map<Json, Product>, i: nat)
    requires Covers(keys, entries) && i < |keys|
    ensures Covers(keys[..i], entries) && Covers(keys[..i + 1], entries)
    ensures Unmatched(keys[..i + 1], entries, other)
         == Unmatched(keys[..i], entries, other) + (if keys[i] in other then [] else [entries[keys[i]]])
  {
    assert keys[..i + 1][..i] == keys[..i];
  }

  lemma ModifiedStep(keys: seq<Json>, entries: map<Json, Product>, other: map<Json, Product>, i: nat)
    requires Covers(keys, entries) && i < |keys|
    ensures Covers(keys[..i], entries) && Covers(keys[..i + 1], entries)
    ensures var c := keys[i];
            Modified(keys[..i + 1], entries, other)
            == Modified(keys[..i], entries, other)
               + (if c in other && Changes(entries[c], other[c]) != [] then [Modification(c, Changes(entries[c], other[c]))] else [])
  {
    assert keys[..i + 1][..i] == keys[..i];
  }

  /** `compareProducts`: one pass over the work-in-progress map for added and
      modified products, one over the published map for removed ones. */
  method CompareProducts(wipProducts: seq<Product>, publishedProducts: seq<Product>) returns (diff: ProductDiff)
    ensures diff == Compare(wipProducts, publishedProducts)
  {
    var wipMap := IndexByCode(wipProducts);
    var publishedMap := IndexByCode(publishedProducts);
    IndexCovers(wipProducts);
    IndexCovers(publishedProducts);
    var added: seq<Product> := [];
    var removed: seq<Product> := [];
    var modified: seq<Modification> := [];
    var i := 0;
    while i < |wipMap.keys|
      invariant 0 <= i <= |wipMap.keys|
      invariant added == Unmatched(wipMap.keys[..i], wipMap.entries, publishedMap.entries)
      invariant modified == Modified(wipMap.keys[..i], wipMap.entries, publishedMap.entries)
    {
      var styleCode := wipMap.keys[i];
      var wipProduct := wipMap.entries[styleCode];
      UnmatchedStep(wipMap.keys, wipMap.entries, publishedMap.entries, i);
      ModifiedStep(wipMap.keys, wipMap.entries, publishedMap.entries, i);
      if styleCode !in publishedMap.entries {
        added := added + [wipProduct];
      } else {
        var publishedProduct := publishedMap.entries[styleCode];
        var changes := DetectProductChanges(wipProduct, publishedProduct);
        if |changes| > 0 {
          modified := modified + [Modification(styleCode, changes)];
        }
      }
      i := i + 1;
    }
    assert wipMap.keys[..i] == wipMap.keys;
    var j := 0;
    while j < |publishedMap.keys|
      invariant 0 <= j <= |publishedMap.keys|
      invariant removed == Unmatched(publishedMap.keys[..j], publishedMap.entries, wipMap.entries)
    {
      var styleCode := publishedMap.keys[j];
      UnmatchedStep(publishedMap.keys, publishedMap.entries, wipMap.entries, j);
      if styleCode !in wipMap.entries {
        removed := removed + [publishedMap.entries[styleCode]];
      }
      j := j + 1;
    }
    assert publishedMap.keys[..j] == publishedMap.keys;
    diff := ProductDiff(added, removed, modified);
  }

  lemma {:induction false} UnmatchedMembers(keys: seq<Json>, entries: map<Json, Product>, other: map<Json, Product>)
    requires Covers(keys, entries)
    ensures forall x :: x in Unmatched(keys, entries, other)
              ==> exists c :: c in keys && c !in other && x == entries[c]
    ensures forall c :: c in keys && c !in other ==> entries[c] in Unmatched(keys, entries, other)
    decreases |keys|
  {
    if keys != [] {
      var n := |keys| - 1;
      UnmatchedMembers(keys[..n], entries, other);
      assert keys == keys[..n] + [keys[n]];
    }
  }

  lemma {:induction false} ModifiedMembers(keys: seq<Json>, entries: map<Json, Product>, other: map<Json, Product>)
    requires Covers(keys, entries)
    ensures forall m :: m in Modified(keys, entries, other)
              ==> m.styleCode in keys && m.styleCode in other
                  && m.changes == Changes(entries[m.styleCode], other[m.styleCode]) && m.changes != []
    ensures forall c :: c in keys && c in other && Changes(entries[c], other[c]) != []
              ==> Modification(c, Changes(entries[c], other[c])) in Modified(keys, entries, other)
    decreases |keys|
  {
    if keys != [] {
      var n := |keys| - 1;
      ModifiedMembers(keys[..n], entries, other);
      assert keys == keys[..n] + [keys[n]];
    }
  }

  /** `added` holds, for each code only the work-in-progress list has, the
      product that stands for it, and nothing else. */
  lemma CompareAdded(wip: seq<Product>, published: seq<Product>)
    ensures forall x :: x in Compare(wip, published).added
              ==> StyleCode(x) in Codes(wip) && StyleCode(x) !in Codes(published)
                  && x == Representative(wip, StyleCode(x))
    ensures forall c :: c in Codes(wip) && c !in Codes(published)
              ==> Representative(wip, c) in Compare(wip, published).added
  {
    var w := IndexByCode(wip);
    var p := IndexByCode(published);
    IndexCovers(wip);
    IndexSound(wip);
    UnmatchedMembers(w.keys, w.entries, p.entries);
    IndexKeys(wip);
    IndexEntries(wip);
    IndexEntries(published);
  }

  /** `removed` holds, for each code only the published list has, the
      product that stands for it, and nothing else. */
  lemma CompareRemoved(wip: seq<Product>, published: seq<Product>)
    ensures forall x :: x in Compare(wip, published).removed
              ==> StyleCode(x) in Codes(published) && StyleCode(x) !in Codes(wip)
                  && x == Representative(published, StyleCode(x))
    ensures forall c :: c in Codes(published) && c !in Codes(wip)
              ==> Representative(published, c) in Compare(wip, published).removed
  {
    CompareSwap(wip, published);
    CompareAdded(published, wip);
  }

  /** `modified` holds, for each code both lists have and whose products
      differ, the code with the changed keys, and nothing else. */
  lemma CompareModified(wip: seq<Product>, published: seq<Product>)
    ensures forall m :: m in Compare(wip, published).modified
              ==> m.styleCode in Codes(wip) && m.styleCode in Codes(published)
                  && m.changes == Changes(Representative(wip, m.styleCode), Representative(published, m.styleCode))
                  && m.changes != []
    ensures forall c :: c in Codes(wip) && c in Codes(published)
                        && Changes(Representative(wip, c), Representative(published, c)) != []
              ==> Modification(c, Changes(Representative(wip, c), Representative(published, c)))
                    in Compare(wip, published).modified
  {
    var w := IndexByCode(wip);
    var p := IndexByCode(published);
    IndexCovers(wip);
    ModifiedMembers(w.keys, w.entries, p.entries);
    IndexKeys(wip);
    IndexEntries(wip);
    IndexEntries(published);
  }

  /** Swapping the two lists swaps `added` and `removed`. */
  lemma CompareSwap(wip: seq<Product>, published: seq<Product>)
    ensures Compare(published, wip).added == Compare(wip, published).removed
    ensures Compare(published, wip).removed == Compare(wip, published).added
  {
  }

  /** Swapping the two lists keeps the set of modified codes. */
  lemma CompareSwapModified(wip: seq<Product>, published: seq<Product>, c: Json)
    ensures (exists m :: m in Compare(wip, published).modified && m.styleCode == c)
        <==> (exists m :: m in Compare(published, wip).modified && m.styleCode == c)
  {
    CompareModified(wip, published);
    CompareModified(published, wip);
    if c in Codes(wip) && c in Codes(published) {
      var a, b := Representative(wip, c), Representative(published, c);
      ChangesEmptySymmetric(a, b);
      if Changes(a, b) != [] {
        assert Modification(c, Changes(a, b)) in Compare(wip, published).modified;
        assert Modification(c, Changes(b, a)) in Compare(published, wip).modified;
      }
    }
  }

  lemma {:induction false} UnmatchedSelf(keys: seq<Json>, entries: map<Json, Product>)
    requires Covers(keys, entries)
    ensures Unmatched(keys, entries, entries) == []
    decreases |keys|
  {
    if keys != [] {
      UnmatchedSelf(keys[..|keys| - 1], entries);
    }
  }

  lemma {:induction false} ModifiedSelf(keys: seq<Json>, entries: map<Json, Product>)
    requires Covers(keys, entries)
    ensures Modified(keys, entries, entries) == []
    decreases |keys|
  {
    if keys != [] {
      ModifiedSelf(keys[..|keys| - 1], entries);
      ChangesSelf(entries[keys[|keys| - 1]]);
    }
  }

  /** A list compared with itself has no differences. */
  lemma CompareSelf(ps: seq<Product>)
    ensures Compare(ps, ps) == ProductDiff([], [], [])
  {
    var m := IndexByCode(ps);
    IndexCovers(ps);
    UnmatchedSelf(m.keys, m.entries);
    ModifiedSelf(m.keys, m.entries);
  }
}
