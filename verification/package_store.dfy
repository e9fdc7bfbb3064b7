/** The `package` table and the queries and updates the services run on it
    (internal/repository/package.go). */
module PackageStore {
  import opened Wrappers
  import opened Model
  import opened PackageModel
  import Util
  import Sorting
  import Scopes

  /** The rows in id order and the id the next insert receives. */
  datatype PackageTable = PackageTable(rows: seq<PackageRow>, nextId: int)

  /** What the database guarantees: positive ids, increasing along the table
      and below the next one. */
  ghost predicate Valid(t: PackageTable) {
    && t.nextId >= 1
    && (forall i :: 0 <= i < |t.rows| ==> 0 < t.rows[i].id < t.nextId)
    && (forall i, j :: 0 <= i < j < |t.rows| ==> t.rows[i].id < t.rows[j].id)
  }

  /** The queries' notion of a usable package: traffic left, and either no
      deadline or a deadline still ahead. */
  predicate Eligible(p: PackageRow, now: Time) {
    p.download + p.upload < p.trafficLimit && (p.expireAt.None? || p.expireAt.value > now)
  }

  /** getUserActivePackage's condition: traffic left and a deadline ahead; a
      missing deadline does not qualify. */
  predicate IsActive(p: PackageRow, now: Time) {
    p.download + p.upload < p.trafficLimit && p.expireAt.Some? && p.expireAt.value > now
  }

  /** The batch query's row set: eligible packages of the listed users, in
      table order. */
  function BatchScan(t: PackageTable, userIds: seq<int>, now: Time): (r: seq<PackageRow>)
    ensures forall p :: p in r <==> p in t.rows && Eligible(p, now) && p.userId in userIds
  {
    Util.Select(t.rows, InBatch(userIds, now))
  }

  /** The batch query's WHERE clause. */
  function InBatch(userIds: seq<int>, now: Time): PackageRow -> bool {
    (p: PackageRow) => Eligible(p, now) && p.userId in userIds
  }

  /** One step of the batch grouping loop. The group is read from the map and
      given the owner's id; a reserved package is appended and the group is
      written back, but a package with a deadline only replaces the active
      package of the local copy, which is then dropped: the map is left as it
      was. */
  function Regroup(m: map<int, UserPackages>, p: PackageRow): map<int, UserPackages> {
    var mine := (if p.userId in m then m[p.userId] else NoPackages).(userId := p.userId);
    if p.expireAt.Some? then m
    else m[p.userId := mine.(reserved := mine.reserved + [ToPackage(p)])]
  }

  /** The grouping loop over the scanned rows, left to right. */
  function GroupScan(rows: seq<PackageRow>): map<int, UserPackages>
    decreases |rows|
  {
    if |rows| == 0 then map[] else Regroup(GroupScan(rows[..|rows| - 1]), rows[|rows| - 1])
  }

  /** Rows of user `k` without a deadline. */
  function IsReservedOf(k: int): PackageRow -> bool {
    (p: PackageRow) => p.userId == k && p.expireAt.None?
  }

  function ReservedOf(rows: seq<PackageRow>, k: int): seq<PackageRow> {
    Util.Select(rows, IsReservedOf(k))
  }

  /** What the grouping holds for user `k` after scanning `rows`: a group
      exactly when the user has a reserved package among them, holding those
      packages in scan order and the zero package as the active one. */
  ghost predicate GroupedAs(rows: seq<PackageRow>, k: int) {
    && (k in GroupScan(rows) <==> |ReservedOf(rows, k)| > 0)
    && (k in GroupScan(rows) ==>
          GroupScan(rows)[k] == UserPackages(k, ZeroPackage, ToPackages(ReservedOf(rows, k))))
  }

  /** One step of the grouping keeps GroupedAs for every user. */
  lemma GroupStep(init: seq<PackageRow>, p: PackageRow, k: int)
    requires GroupedAs(init, k)
    ensures GroupedAs(init + [p], k)
  {
    var rows := init + [p];
    assert rows[..|rows| - 1] == init;
    var m := GroupScan(init);
    assert GroupScan(rows) == Regroup(m, p);
    var before := ReservedOf(init, k);
    Util.SelectSnoc(init, p, IsReservedOf(k));
    if p.expireAt.None? && p.userId == k {
      assert ReservedOf(rows, k) == before + [p];
      assert ToPackages(before + [p]) == ToPackages(before) + [ToPackage(p)];
    } else {
      assert ReservedOf(rows, k) == before;
      assert k in Regroup(m, p) <==> k in m;
      assert k in m ==> Regroup(m, p)[k] == m[k];
    }
  }

  /** The grouping keeps one group per user with a reserved package, holding
      exactly that user's reserved packages in scan order, and never records
      an active package. */
  lemma {:induction false} GroupScanSpec(rows: seq<PackageRow>, k: int)
    ensures GroupedAs(rows, k)
    decreases |rows|
  {
    if |rows| > 0 {
      var init := rows[..|rows| - 1];
      assert rows == init + [rows[|rows| - 1]];
      GroupScanSpec(init, k);
      GroupStep(init, rows[|rows| - 1], k);
    }
  }

  /** User `k` is listed and owns a usable package without a deadline. */
  ghost predicate HasUsableReserve(t: PackageTable, userIds: seq<int>, now: Time, k: int) {
    k in userIds && exists p :: p in t.rows && p.userId == k && Eligible(p, now) && p.expireAt.None?
  }

  /** The batch grouping, user by user. */
  lemma BatchGroups(t: PackageTable, userIds: seq<int>, now: Time)
    ensures forall k :: GroupedAs(BatchScan(t, userIds, now), k)
    ensures forall k :: k in GroupScan(BatchScan(t, userIds, now)) <==> HasUsableReserve(t, userIds, now, k)
  {
    var scan := BatchScan(t, userIds, now);
    forall k ensures GroupedAs(scan, k) && (k in GroupScan(scan) <==> HasUsableReserve(t, userIds, now, k)) {
      GroupScanSpec(scan, k);
      if |ReservedOf(scan, k)| > 0 {
        assert ReservedOf(scan, k)[0] in ReservedOf(scan, k);
      }
      if HasUsableReserve(t, userIds, now, k) {
        var p :| p in t.rows && p.userId == k && Eligible(p, now) && p.expireAt.None?;
        assert p in ReservedOf(scan, k);
      }
    }
  }

  /** GetUsersActiveAndReservedPackages: the groups of the batch scan, listed
      in the map's iteration order `order`. Every group's active package is
      the zero package, a user whose only usable package has a deadline gets
      no group, and each group holds the user's usable reserved packages. */
  function GetUsersActiveAndReservedPackages(t: PackageTable, userIds: seq<int>, now: Time, order: seq<int>)
    : (r: seq<UserPackages>)
    requires Util.IsEnumeration(order, GroupScan(BatchScan(t, userIds, now)).Keys)
    ensures |r| == |order|
    ensures forall i :: 0 <= i < |r| ==> r[i].userId == order[i] && r[i].active == ZeroPackage
    ensures forall i :: 0 <= i < |r| ==> r[i].reserved == ToPackages(ReservedOf(BatchScan(t, userIds, now), order[i]))
    ensures forall k :: k in order <==> HasUsableReserve(t, userIds, now, k)
  {
    var scan := BatchScan(t, userIds, now);
    var m := GroupScan(scan);
    BatchGroups(t, userIds, now);
    assert forall i :: 0 <= i < |order| ==> order[i] in m && GroupedAs(scan, order[i]);
    seq(|order|, i requires 0 <= i < |order| => m[order[i]])
  }

  /** One step of the batch loop as evidently intended: as in the single-user
      loop, a package with a deadline becomes the group's active package, and
      the group is written back whichever kind the package is. */
  function RegroupIntended(m: map<int, UserPackages>, p: PackageRow): map<int, UserPackages> {
    var mine := (if p.userId in m then m[p.userId] else NoPackages).(userId := p.userId);
    if p.expireAt.Some? then m[p.userId := mine.(active := ToPackage(p))]
    else m[p.userId := mine.(reserved := mine.reserved + [ToPackage(p)])]
  }

  /** The corrected grouping loop over the scanned rows, left to right. */
  function GroupScanIntended(rows: seq<PackageRow>): map<int, UserPackages>
    decreases |rows|
  {
    if |rows| == 0 then map[] else RegroupIntended(GroupScanIntended(rows[..|rows| - 1]), rows[|rows| - 1])
  }

  /** Rows of user `k`. */
  function IsRowOf(k: int): PackageRow -> bool {
    (p: PackageRow) => p.userId == k
  }

  /** What the corrected grouping holds for user `k` after scanning `rows`:
      a group exactly when some row is theirs, holding what the single-user
      loop makes of those rows. */
  ghost predicate CollectedAs(rows: seq<PackageRow>, k: int) {
    && (k in GroupScanIntended(rows) <==> |Util.Select(rows, IsRowOf(k))| > 0)
    && (k in GroupScanIntended(rows) ==> GroupScanIntended(rows)[k] == Collect(Util.Select(rows, IsRowOf(k))))
  }

  /** One step of the corrected grouping keeps CollectedAs for every user. */
  lemma IntendedStep(init: seq<PackageRow>, p: PackageRow, k: int)
    requires CollectedAs(init, k)
    ensures CollectedAs(init + [p], k)
  {
    var rows := init + [p];
    assert rows[..|rows| - 1] == init;
    assert GroupScanIntended(rows) == RegroupIntended(GroupScanIntended(init), p);
    Util.SelectSnoc(init, p, IsRowOf(k));
    if p.userId == k {
      assert Util.Select(rows, IsRowOf(k)) == Util.Select(init, IsRowOf(k)) + [p];
      IntendedStepOwn(init, p, GroupScanIntended(init), Util.Select(init, IsRowOf(k)));
    } else {
      assert Util.Select(rows, IsRowOf(k)) == Util.Select(init, IsRowOf(k));
      IntendedStepOther(GroupScanIntended(init), p, k);
    }
  }

  /** The step on a row of user `k` runs one step of the single-user loop. */
  lemma IntendedStepOwn(init: seq<PackageRow>, p: PackageRow, m: map<int, UserPackages>, before: seq<PackageRow>)
    requires p.userId in m <==> |before| > 0
    requires p.userId in m ==> m[p.userId] == Collect(before)
    ensures p.userId in RegroupIntended(m, p)
    ensures RegroupIntended(m, p)[p.userId] == Collect(before + [p])
  {
    var mine := before + [p];
    assert mine[..|mine| - 1] == before && mine[|mine| - 1] == p;
    if p.userId !in m {
      assert before == [];
    }
  }

  /** The step on another user's row leaves user `k`'s group alone. */
  lemma IntendedStepOther(m: map<int, UserPackages>, p: PackageRow, k: int)
    requires p.userId != k
    ensures k in RegroupIntended(m, p) <==> k in m
    ensures k in m ==> RegroupIntended(m, p)[k] == m[k]
  {
  }

  /** The corrected grouping runs the single-user loop on each user's rows. */
  lemma {:induction false} GroupScanIntendedCollects(rows: seq<PackageRow>, k: int)
    ensures CollectedAs(rows, k)
    decreases |rows|
  {
    if |rows| > 0 {
      var init := rows[..|rows| - 1];
      assert rows == init + [rows[|rows| - 1]];
      GroupScanIntendedCollects(init, k);
      IntendedStep(init, rows[|rows| - 1], k);
    }
  }

  /** GetUsersActiveAndReservedPackages as evidently intended: every listed
      user with a usable package gets exactly the answer the single-user
      query gives for them. */
  function GetUsersActiveAndReservedPackagesIntended(t: PackageTable, userIds: seq<int>, now: Time, order: seq<int>)
    : (r: seq<UserPackages>)
    requires Util.IsEnumeration(order, GroupScanIntended(BatchScan(t, userIds, now)).Keys)
    ensures |r| == |order|
    ensures forall i :: 0 <= i < |r| ==> r[i] == GetUserActiveAndReservedPackages(t, order[i], now)
    ensures forall k :: k in order <==> k in userIds && exists p :: p in t.rows && p.userId == k && Eligible(p, now)
  {
    var scan := BatchScan(t, userIds, now);
    var m := GroupScanIntended(scan);
    forall k | k in order
      ensures k in m && m[k] == GetUserActiveAndReservedPackages(t, k, now)
    {
      GroupScanIntendedCollects(scan, k);
      BatchRowsOfUser(t, userIds, now, k);
    }
    forall k ensures k in m <==> k in userIds && exists p :: p in t.rows && p.userId == k && Eligible(p, now) {
      GroupScanIntendedCollects(scan, k);
      var mine := Util.Select(scan, IsRowOf(k));
      if |mine| > 0 {
        assert mine[0] in mine;
      }
      if k in userIds && exists p :: p in t.rows && p.userId == k && Eligible(p, now) {
        var p :| p in t.rows && p.userId == k && Eligible(p, now);
        assert p in mine;
      }
    }
    seq(|order|, i requires 0 <= i < |order| => m[order[i]])
  }

  /** A listed user's rows of the batch scan are the single-user scan. */
  lemma BatchRowsOfUser(t: PackageTable, userIds: seq<int>, now: Time, k: int)
    requires k in userIds
    ensures Util.Select(BatchScan(t, userIds, now), IsRowOf(k)) == UserScan(t, k, now)
  {
    Util.SelectSelect(t.rows, InBatch(userIds, now), IsRowOf(k), UsableOf(k, now));
  }

  /** As written, the batch query loses active packages: a user whose one
      usable package has a deadline gets no group at all, while the
      single-user query makes that package active and the corrected batch
      query returns the same answer. */
  lemma BatchDropsActivePackage(t: PackageTable, userId: int, now: Time, p: PackageRow)
    requires t.rows == [p] && p.userId == userId && Eligible(p, now) && p.expireAt.Some?
    ensures GroupScan(BatchScan(t, [userId], now)) == map[]
    ensures GetUsersActiveAndReservedPackages(t, [userId], now, []) == []
    ensures GetUserActiveAndReservedPackages(t, userId, now).active == ToPackage(p)
    ensures GroupScanIntended(BatchScan(t, [userId], now)).Keys == {userId}
    ensures GetUsersActiveAndReservedPackagesIntended(t, [userId], now, [userId]) ==
      [GetUserActiveAndReservedPackages(t, userId, now)]
  {
    var scan := BatchScan(t, [userId], now);
    assert scan == [p];
    assert scan[..0] == [];
    var rows := UserScan(t, userId, now);
    assert rows == [p];
  }

  /** One step of the single-user loop: the owner's id is recorded, then a
      package with a deadline becomes the active one and any other is
      appended to the reserved list. */
  function Collect(rows: seq<PackageRow>): UserPackages
    decreases |rows|
  {
    if |rows| == 0 then NoPackages
    else
      var acc := Collect(rows[..|rows| - 1]).(userId := rows[|rows| - 1].userId);
      var p := rows[|rows| - 1];
      if p.expireAt.Some? then acc.(active := ToPackage(p))
      else acc.(reserved := acc.reserved + [ToPackage(p)])
  }

  function IsUndated(p: PackageRow): bool { p.expireAt.None? }

  /** The packages of `rows` without a deadline, in order. */
  function Undated(rows: seq<PackageRow>): seq<PackageRow> {
    Util.Select(rows, IsUndated)
  }

  /** Collect's result stated without the loop: the active package is the
      last one with a deadline (the zero package when there is none), the
      reserved list is every package without one, and the owner is the last
      row's. */
  lemma CollectSpec(rows: seq<PackageRow>)
    ensures Collect(rows).reserved == ToPackages(Undated(rows))
    ensures Collect(rows).userId == if |rows| == 0 then 0 else rows[|rows| - 1].userId
    ensures (forall i :: 0 <= i < |rows| ==> rows[i].expireAt.None?) ==> Collect(rows).active == ZeroPackage
    ensures forall i :: (0 <= i < |rows| && rows[i].expireAt.Some? &&
      (forall j :: i < j < |rows| ==> rows[j].expireAt.None?)) ==> Collect(rows).active == ToPackage(rows[i])
  {
    CollectReserved(rows);
    CollectActive(rows);
  }

  /** Collect's reserved list is every package without a deadline. */
  lemma {:induction false} CollectReserved(rows: seq<PackageRow>)
    ensures Collect(rows).reserved == ToPackages(Undated(rows))
    decreases |rows|
  {
    if |rows| > 0 {
      var init := rows[..|rows| - 1];
      var p := rows[|rows| - 1];
      assert rows == init + [p];
      CollectReserved(init);
      Util.SelectSnoc(init, p, IsUndated);
    }
  }

  /** Collect's active package is the last one with a deadline, or the zero
      package when there is none. */
  lemma {:induction false} CollectActive(rows: seq<PackageRow>)
    ensures (forall i :: 0 <= i < |rows| ==> rows[i].expireAt.None?) ==> Collect(rows).active == ZeroPackage
    ensures forall i :: (0 <= i < |rows| && rows[i].expireAt.Some? &&
      (forall j :: i < j < |rows| ==> rows[j].expireAt.None?)) ==> Collect(rows).active == ToPackage(rows[i])
    decreases |rows|
  {
    if |rows| > 0 {
      var init := rows[..|rows| - 1];
      var p := rows[|rows| - 1];
      CollectActive(init);
      forall i | 0 <= i < |rows| - 1 && rows[i].expireAt.Some? && (forall j :: i < j < |rows| ==> rows[j].expireAt.None?)
        ensures Collect(rows).active == ToPackage(rows[i])
      {
        assert init[i] == rows[i];
        assert forall j :: i < j < |init| ==> init[j].expireAt.None?;
      }
      if forall i :: 0 <= i < |rows| ==> rows[i].expireAt.None? {
        assert forall i :: 0 <= i < |init| ==> init[i].expireAt.None?;
      }
    }
  }

  /** The single-user query's row set: that user's eligible packages. */
  function UserScan(t: PackageTable, userId: int, now: Time): (r: seq<PackageRow>)
    ensures forall p :: p in r <==> p in t.rows && Eligible(p, now) && p.userId == userId
  {
    Util.Select(t.rows, UsableOf(userId, now))
  }

  /** The single-user query's WHERE clause. */
  function UsableOf(userId: int, now: Time): PackageRow -> bool {
    (p: PackageRow) => Eligible(p, now) && p.userId == userId
  }

  /** GetUserActiveAndReservedPackages: among the user's usable packages, the
      last one with a deadline is active and those without one are reserved,
      in table order; with no usable package the result is empty and its
      owner id 0. */
  function GetUserActiveAndReservedPackages(t: PackageTable, userId: int, now: Time): (r: UserPackages)
    ensures r.reserved == ToPackages(Undated(UserScan(t, userId, now)))
    ensures r.userId == if |UserScan(t, userId, now)| == 0 then 0 else userId
    ensures var rows := UserScan(t, userId, now);
      forall i :: (0 <= i < |rows| && rows[i].expireAt.Some? &&
        (forall j :: i < j < |rows| ==> rows[j].expireAt.None?)) ==> r.active == ToPackage(rows[i])
    ensures (forall p :: p in t.rows && Eligible(p, now) && p.userId == userId ==> p.expireAt.None?) ==>
      r.active == ZeroPackage
  {
    var rows := UserScan(t, userId, now);
    CollectSpec(rows);
    assert |rows| > 0 ==> rows[|rows| - 1] in rows;
    assert forall i :: 0 <= i < |rows| ==> rows[i] in rows;
    Collect(rows)
  }

  /** getUserActivePackage's filter for one user. */
  function ActiveOf(userId: int, now: Time): PackageRow -> bool {
    (p: PackageRow) => p.userId == userId && IsActive(p, now)
  }

  /** getUserActivePackage: the user's first package, in id order, that has
      traffic left and a deadline ahead; record-not-found when there is none. */
  function GetUserActivePackage(t: PackageTable, userId: int, now: Time): (r: Result<PackageRow>)
    ensures r.Ok? ==> r.value in t.rows && r.value.userId == userId && IsActive(r.value, now)
    ensures r.Ok? ==> exists i :: Util.IsFirst(t.rows, i, ActiveOf(userId, now)) && t.rows[i] == r.value
    ensures r.Err? <==> forall p :: p in t.rows ==> !(p.userId == userId && IsActive(p, now))
    ensures r.Err? ==> r.error == RecordNotFound
  {
    var rows := Util.Select(t.rows, ActiveOf(userId, now));
    if |rows| == 0 then
      Err(RecordNotFound)
    else
      Util.FirstSelected(t.rows, ActiveOf(userId, now));
      assert rows[0] in rows;
      Ok(rows[0])
  }

  /** The row CreatePackage inserts: no traffic used yet, stamped `now`. */
  function NewPackageRow(t: PackageTable, req: CreatePackageRequest, expireAt: Option<Time>, now: Time): PackageRow {
    PackageRow(t.nextId, req.userId, req.traffic, 0, 0, req.maxConnections, req.isTrial,
               req.expirationInDays, expireAt, now)
  }

  /** CreatePackage. The owner's active package is looked up first; an error
      other than record-not-found is returned and nothing is inserted. `fault`
      stands for that failing lookup and equally for a failing insert, whose
      error is returned the same way with nothing stored. The new package is given a deadline of
      `now` plus its duration exactly when the owner already has an active
      package; otherwise it is stored without one. */
  function CreatePackage(t: PackageTable, req: CreatePackageRequest, now: Time, fault: Option<Error>)
    : (r: Result<PackageTable>)
    ensures fault.Some? && fault.value != RecordNotFound ==> r == Err(fault.value)
    ensures r.Ok? ==> |r.value.rows| == |t.rows| + 1 && r.value.rows[..|t.rows|] == t.rows
    ensures r.Ok? ==> r.value.nextId == t.nextId + 1
    ensures r.Ok? ==> var p := r.value.rows[|t.rows|];
      && p.id == t.nextId && p.userId == req.userId && p.trafficLimit == req.traffic
      && p.download == 0 && p.upload == 0 && p.isTrial == req.isTrial && p.createdAt == now
  {
    var lookup := if fault.Some? then Err(fault.value) else GetUserActivePackage(t, req.userId, now);
    if lookup.Err? && lookup.error != RecordNotFound then Err(lookup.error)
    else
      var activeId := if lookup.Ok? then lookup.value.id else 0;
      var expireAt := if activeId != 0 then Some(now + req.expirationInDays * Day) else None;
      var p := NewPackageRow(t, req, expireAt, now);
      assert (t.rows + [p])[..|t.rows|] == t.rows;
      Ok(PackageTable(t.rows + [p], t.nextId + 1))
  }

  /** The activation rule as written: on a valid table, a new package gets a
      deadline if and only if its owner already has an active package; the
      first package a user buys is stored as a reserve. */
  lemma CreatePackageActivation(t: PackageTable, req: CreatePackageRequest, now: Time)
    requires Valid(t)
    ensures var r := CreatePackage(t, req, now, None);
      && r.Ok?
      && (r.value.rows[|t.rows|].expireAt.Some? <==> exists p :: p in t.rows && p.userId == req.userId && IsActive(p, now))
      && (r.value.rows[|t.rows|].expireAt.Some? ==> r.value.rows[|t.rows|].expireAt.value == now + req.expirationInDays * Day)
  {
    var lookup := GetUserActivePackage(t, req.userId, now);
    if lookup.Ok? {
      var i :| 0 <= i < |t.rows| && t.rows[i] == lookup.value;
      assert lookup.value.id > 0;
    }
  }

  /** UpdateTrafficUsage: both counters of the row with that id grow by the
      given amounts; every other row is untouched. */
  function UpdateTrafficUsage(t: PackageTable, id: int, download: int, upload: int): (r: PackageTable)
    ensures |r.rows| == |t.rows| && r.nextId == t.nextId
    ensures forall i :: 0 <= i < |t.rows| && t.rows[i].id != id ==> r.rows[i] == t.rows[i]
    ensures forall i :: 0 <= i < |t.rows| && t.rows[i].id == id ==>
      r.rows[i] == t.rows[i].(download := t.rows[i].download + download, upload := t.rows[i].upload + upload)
  {
    t.(rows := seq(|t.rows|, i requires 0 <= i < |t.rows| =>
      if t.rows[i].id == id
      then t.rows[i].(download := t.rows[i].download + download, upload := t.rows[i].upload + upload)
      else t.rows[i]))
  }

  /** Debits accumulate: two updates of one row are one update by the sums. */
  lemma UpdatesCompose(t: PackageTable, id: int, d1: int, u1: int, d2: int, u2: int)
    ensures UpdateTrafficUsage(UpdateTrafficUsage(t, id, d1, u1), id, d2, u2)
         == UpdateTrafficUsage(t, id, d1 + d2, u1 + u2)
  {
    var a := UpdateTrafficUsage(UpdateTrafficUsage(t, id, d1, u1), id, d2, u2);
    var b := UpdateTrafficUsage(t, id, d1 + d2, u1 + u2);
    assert a.rows == b.rows;
  }

  /** An update naming no stored row, such as id 0 in a valid table, changes
      nothing. */
  lemma UpdateOfMissingRow(t: PackageTable, id: int, download: int, upload: int)
    requires Valid(t) && id <= 0
    ensures UpdateTrafficUsage(t, id, download, upload) == t
  {
    assert UpdateTrafficUsage(t, id, download, upload).rows == t.rows;
  }

  /** GetPackages' filter: a positive user id selects that user's packages,
      any other value selects all. */
  function OwnedBy(userId: int): PackageRow -> bool {
    (p: PackageRow) => userId <= 0 || p.userId == userId
  }

  /** The ordering key of `created_at desc`. */
  function NewestCreated(p: PackageRow): int { -p.createdAt }

  /** A window of a newest-first list is newest-first and drawn from it. */
  lemma PageOfSorted(sorted: seq<PackageRow>, w: Scopes.Window)
    requires w.offset >= 0 && w.limit >= 0
    requires Sorting.SortedBy(sorted, NewestCreated)
    ensures var rows := Scopes.Page(sorted, w);
      forall i, j :: 0 <= i < j < |rows| ==> rows[i].createdAt >= rows[j].createdAt
    ensures forall row :: row in Scopes.Page(sorted, w) ==> row in sorted
  {
    Scopes.PageSorted(sorted, w, NewestCreated);
    var rows := Scopes.Page(sorted, w);
    forall i, j | 0 <= i < j < |rows| ensures rows[i].createdAt >= rows[j].createdAt {
      assert NewestCreated(rows[i]) <= NewestCreated(rows[j]);
    }
  }

  /** The rows GetPackages returns, before conversion. */
  function PackageRows(t: PackageTable, userId: int, page: Pagination): (r: (seq<PackageRow>, Pagination))
    ensures forall row :: row in r.0 ==> row in t.rows && OwnedBy(userId)(row)
    ensures forall i, j :: 0 <= i < j < |r.0| ==> r.0[i].createdAt >= r.0[j].createdAt
    ensures r.1.total == |Util.Select(t.rows, OwnedBy(userId))|
    ensures |r.0| <= r.1.pageSize
    ensures var matching := Util.Select(t.rows, OwnedBy(userId));
      var (q, w) := Scopes.Paginate(page, |matching|);
      r.1 == q && r.0 == Scopes.Page(Sorting.SortBy(matching, NewestCreated), w)
  {
    var matching := Util.Select(t.rows, OwnedBy(userId));
    var sorted := Sorting.SortBy(matching, NewestCreated);
    Sorting.SortedMembers(matching, sorted);
    var (q, w) := Scopes.Paginate(page, |matching|);
    PageOfSorted(sorted, w);
    (Scopes.Page(sorted, w), q)
  }

  /** GetPackages: the (possibly user-filtered) packages, newest first, one
      page of them, with the page totals set from the filtered count. */
  function GetPackages(t: PackageTable, userId: int, page: Pagination): (r: (seq<Package>, Pagination))
    ensures userId > 0 ==> forall p :: p in r.0 ==> p.userId == userId
    ensures forall i, j :: 0 <= i < j < |r.0| ==> r.0[i].createdAt >= r.0[j].createdAt
    ensures forall p :: p in r.0 ==> exists row :: row in t.rows && ToPackage(row) == p
    ensures r.1.total == |Util.Select(t.rows, OwnedBy(userId))|
    ensures |r.0| <= r.1.pageSize
    ensures var matching := Util.Select(t.rows, OwnedBy(userId));
      var (q, w) := Scopes.Paginate(page, |matching|);
      r.1 == q && r.0 == ToPackages(Scopes.Page(Sorting.SortBy(matching, NewestCreated), w))
  {
    var (rows, q) := PackageRows(t, userId, page);
    var ps := ToPackages(rows);
    assert forall i :: 0 <= i < |rows| ==> rows[i] in rows;
    (ps, q)
  }

  /** Paging loses nothing: every package the filter keeps is returned on
      some page, whatever the page size. */
  lemma EveryPackageListed(t: PackageTable, userId: int, size: int, row: PackageRow)
    requires 1 <= size <= Scopes.MaxPageSize
    requires row in t.rows && OwnedBy(userId)(row)
    ensures exists pg :: pg >= 1 && ToPackage(row) in GetPackages(t, userId, Pagination(pg, size, 0, 0)).0
  {
    var matching := Util.Select(t.rows, OwnedBy(userId));
    var sorted := Sorting.SortBy(matching, NewestCreated);
    Sorting.SortedMembers(matching, sorted);
    assert row in matching;
    assert row in sorted;
    var pg, j := Scopes.PlaceOf(sorted, size, row);
    var shown := Scopes.Page(sorted, Scopes.Paginate(Pagination(pg, size, 0, 0), |sorted|).1);
    assert GetPackages(t, userId, Pagination(pg, size, 0, 0)).0 == ToPackages(shown);
    assert ToPackages(shown)[j] == ToPackage(row);
  }
}
