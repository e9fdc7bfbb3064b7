/** The `user` table and its queries (internal/repository/user.go and
    user_model.go). */
module UserStore {
  import opened Wrappers
  import opened Model
  import Util
  import Sorting
  import Scopes
  import PackageModel
  import PackageStore

  /** A row of the `user` table. `deletedAt` is an ordinary nullable column
      here, not a soft-delete marker: no query filters on it. */
  datatype UserRow = UserRow(
    id: int,
    username: string,
    externalId: string,
    userType: string,
    referralCode: string,
    referral: Option<string>,
    bannedAt: Option<Time>,
    createdAt: Time,
    deletedAt: Option<Time>)

  /** toModelUserEntity: every column but `deletedAt`. */
  function ToUser(r: UserRow): (u: User)
    ensures u.id == r.id && u.username == r.username && u.bannedAt == r.bannedAt
  {
    User(r.id, r.username, r.externalId, r.userType, r.referralCode, r.referral, r.bannedAt, r.createdAt)
  }

  /** The row a user record describes, given the column the record omits. */
  function RowOf(u: User, deletedAt: Option<Time>): UserRow {
    UserRow(u.id, u.username, u.externalId, u.userType, u.referralCode, u.referral, u.bannedAt,
            u.createdAt, deletedAt)
  }

  /** The conversion loses exactly `deletedAt`. */
  lemma ToUserLosesOnlyDeletedAt(r: UserRow, u: User)
    ensures RowOf(ToUser(r), r.deletedAt) == r
    ensures ToUser(RowOf(u, r.deletedAt)) == u
  {
  }

  /** toModelUserEntities. */
  function ToUsers(rs: seq<UserRow>): (us: seq<User>)
    ensures |us| == |rs|
    ensures forall i :: 0 <= i < |rs| ==> us[i] == ToUser(rs[i])
  {
    seq(|rs|, i requires 0 <= i < |rs| => ToUser(rs[i]))
  }

  /** The rows in id order and the id the next insert receives. */
  datatype UserTable = UserTable(rows: seq<UserRow>, nextId: int)

  /** Positive ids, increasing along the table and below the next one. */
  ghost predicate Valid(t: UserTable) {
    && t.nextId >= 1
    && (forall i :: 0 <= i < |t.rows| ==> 0 < t.rows[i].id < t.nextId)
    && (forall i, j :: 0 <= i < j < |t.rows| ==> t.rows[i].id < t.rows[j].id)
  }

  /** The error GetUserByID and GetUserByUsername return for a missing user:
      a fresh not-found error with the sentinel's message. */
  const Missing: Error := NotFound(Message(UserNotFound))

  /** GetUsersByUsernames: exactly the stored users whose name is listed, in
      table order; an empty list selects nobody. */
  function GetUsersByUsernames(t: UserTable, names: seq<string>): (r: seq<User>)
    ensures |r| <= |t.rows|
    ensures forall u :: u in r <==> exists row :: row in t.rows && row.username in names && ToUser(row) == u
    ensures names == [] ==> r == []
  {
    var rows := Util.Select(t.rows, (row: UserRow) => row.username in names);
    var us := ToUsers(rows);
    assert forall i :: 0 <= i < |rows| ==> rows[i] in rows;
    assert |rows| > 0 ==> rows[0] in rows;
    forall u | exists row :: row in t.rows && row.username in names && ToUser(row) == u
      ensures u in us
    {
      var row :| row in t.rows && row.username in names && ToUser(row) == u;
      var i :| 0 <= i < |rows| && rows[i] == row;
      assert us[i] == u;
    }
    us
  }

  /** GetUsersByIDs: exactly the stored users whose id is listed, in table
      order. */
  function GetUsersByIDs(t: UserTable, ids: seq<int>): (r: seq<User>)
    ensures |r| <= |t.rows|
    ensures forall u :: u in r <==> exists row :: row in t.rows && row.id in ids && ToUser(row) == u
  {
    var rows := Util.Select(t.rows, (row: UserRow) => row.id in ids);
    var us := ToUsers(rows);
    assert forall i :: 0 <= i < |rows| ==> rows[i] in rows;
    forall u | exists row :: row in t.rows && row.id in ids && ToUser(row) == u
      ensures u in us
    {
      var row :| row in t.rows && row.id in ids && ToUser(row) == u;
      var i :| 0 <= i < |rows| && rows[i] == row;
      assert us[i] == u;
    }
    us
  }

  function HasId(id: int): UserRow -> bool {
    (row: UserRow) => row.id == id
  }

  function HasUsername(name: string): UserRow -> bool {
    (row: UserRow) => row.username == name
  }

  /** `First` under a WHERE clause: the matching row with the lowest id, or
      the not-found error. */
  function FirstWhere(t: UserTable, keep: UserRow -> bool): (r: Result<User>)
    ensures r.Ok? ==> exists i :: Util.IsFirst(t.rows, i, keep) && ToUser(t.rows[i]) == r.value
    ensures r.Err? <==> forall row :: row in t.rows ==> !keep(row)
    ensures r.Err? ==> r.error == Missing
  {
    var rows := Util.Select(t.rows, keep);
    if |rows| == 0 then Err(Missing)
    else
      Util.FirstSelected(t.rows, keep);
      assert rows[0] in rows;
      Ok(ToUser(rows[0]))
  }

  /** GetUserByID: the user with that id, or a fresh not-found error. The
      error carries the sentinel's text but is not the sentinel. */
  function GetUserByID(t: UserTable, id: int): (r: Result<User>)
    ensures r.Ok? ==> r.value.id == id && exists row :: row in t.rows && ToUser(row) == r.value
    ensures r.Err? <==> forall row :: row in t.rows ==> row.id != id
    ensures r.Err? ==> r.error == Missing && r.error != UserNotFound && Message(r.error) == Message(UserNotFound)
  {
    FirstWhere(t, HasId(id))
  }

  /** GetUserByUsername: the first user with exactly that name, or a fresh
      not-found error. */
  function GetUserByUsername(t: UserTable, name: string): (r: Result<User>)
    ensures r.Ok? ==> r.value.username == name
    ensures r.Ok? ==> exists i :: Util.IsFirst(t.rows, i, HasUsername(name)) && ToUser(t.rows[i]) == r.value
    ensures r.Err? <==> forall row :: row in t.rows ==> row.username != name
    ensures r.Err? ==> r.error == Missing && r.error != UserNotFound
  {
    FirstWhere(t, HasUsername(name))
  }

  /** A user found by name is a stored row of that name. */
  lemma GetUserByUsernameStored(t: UserTable, name: string)
    ensures var r := GetUserByUsername(t, name);
      r.Ok? ==> exists row :: row in t.rows && row.username == name && ToUser(row) == r.value
  {
    var r := GetUserByUsername(t, name);
    if r.Ok? {
      var i :| Util.IsFirst(t.rows, i, HasUsername(name)) && ToUser(t.rows[i]) == r.value;
      assert t.rows[i] in t.rows;
    }
  }

  /** In a valid table the user found by id is the one stored under it. */
  lemma GetUserByIDUnique(t: UserTable, i: int)
    requires Valid(t) && 0 <= i < |t.rows|
    ensures GetUserByID(t, t.rows[i].id) == Ok(ToUser(t.rows[i]))
  {
    var r := GetUserByID(t, t.rows[i].id);
    assert t.rows[i] in t.rows;
    var k :| Util.IsFirst(t.rows, k, HasId(t.rows[i].id)) && ToUser(t.rows[k]) == r.value;
    assert t.rows[k].id == t.rows[i].id;
    assert forall a, b :: 0 <= a < |t.rows| && 0 <= b < |t.rows| && a != b ==> t.rows[a].id != t.rows[b].id by {
      forall a, b | 0 <= a < |t.rows| && 0 <= b < |t.rows| && a != b ensures t.rows[a].id != t.rows[b].id {
        if a < b { assert t.rows[a].id < t.rows[b].id; } else { assert t.rows[b].id < t.rows[a].id; }
      }
    }
  }

  /** Lookups by id see only ids and names: two tables that agree on them,
      row by row, find the same user name for every id. */
  lemma GetUserByIDAgrees(t1: UserTable, t2: UserTable, id: int)
    requires |t1.rows| == |t2.rows|
    requires forall i :: 0 <= i < |t1.rows| ==> t1.rows[i].id == t2.rows[i].id && t1.rows[i].username == t2.rows[i].username
    ensures GetUserByID(t1, id).Ok? <==> GetUserByID(t2, id).Ok?
    ensures GetUserByID(t1, id).Ok? ==> GetUserByID(t1, id).value.username == GetUserByID(t2, id).value.username
  {
    var r1 := GetUserByID(t1, id);
    var r2 := GetUserByID(t2, id);
    if r1.Ok? {
      var i :| Util.IsFirst(t1.rows, i, HasId(id)) && ToUser(t1.rows[i]) == r1.value;
      assert t2.rows[i] in t2.rows && t2.rows[i].id == id;
      var j :| Util.IsFirst(t2.rows, j, HasId(id)) && ToUser(t2.rows[j]) == r2.value;
      assert HasId(id)(t2.rows[i]) && HasId(id)(t1.rows[j]);
      assert i == j;
    } else {
      forall row | row in t2.rows ensures row.id != id {
        var j :| 0 <= j < |t2.rows| && t2.rows[j] == row;
        assert t1.rows[j] in t1.rows;
      }
    }
  }

  /** The column `banned_at` of the rows with that id set to `value`;
      UpdateColumn leaves every other column, `updated` stamps included,
      alone. */
  function SetBannedAt(t: UserTable, id: int, value: Option<Time>): (r: UserTable)
    ensures |r.rows| == |t.rows| && r.nextId == t.nextId
    ensures forall i :: 0 <= i < |t.rows| ==>
      r.rows[i] == if t.rows[i].id == id then t.rows[i].(bannedAt := value) else t.rows[i]
  {
    t.(rows := seq(|t.rows|, i requires 0 <= i < |t.rows| =>
      if t.rows[i].id == id then t.rows[i].(bannedAt := value) else t.rows[i]))
  }

  /** BanUser: the user with that id is banned as of `now`; nobody else
      changes. */
  function BanUser(t: UserTable, id: int, now: Time): (r: UserTable)
    ensures |r.rows| == |t.rows|
    ensures forall i :: 0 <= i < |t.rows| && t.rows[i].id == id ==> r.rows[i].bannedAt == Some(now)
    ensures forall i :: 0 <= i < |t.rows| ==> r.rows[i].(bannedAt := t.rows[i].bannedAt) == t.rows[i]
    ensures forall i :: 0 <= i < |t.rows| && t.rows[i].id != id ==> r.rows[i] == t.rows[i]
  {
    SetBannedAt(t, id, Some(now))
  }

  /** UnbanUser: the user with that id is no longer banned; nobody else
      changes. */
  function UnbanUser(t: UserTable, id: int): (r: UserTable)
    ensures |r.rows| == |t.rows|
    ensures forall i :: 0 <= i < |t.rows| && t.rows[i].id == id ==> r.rows[i].bannedAt.None?
    ensures forall i :: 0 <= i < |t.rows| ==> r.rows[i].(bannedAt := t.rows[i].bannedAt) == t.rows[i]
    ensures forall i :: 0 <= i < |t.rows| && t.rows[i].id != id ==> r.rows[i] == t.rows[i]
  {
    SetBannedAt(t, id, None)
  }

  /** Unbanning undoes a ban: it ends where unbanning alone would, and on a
      user who was not banned it restores the table exactly. */
  lemma UnbanUndoesBan(t: UserTable, id: int, now: Time)
    ensures UnbanUser(BanUser(t, id, now), id) == UnbanUser(t, id)
    ensures (forall row :: row in t.rows && row.id == id ==> row.bannedAt.None?) ==>
      UnbanUser(BanUser(t, id, now), id) == t
  {
    assert UnbanUser(BanUser(t, id, now), id).rows == UnbanUser(t, id).rows;
    if forall row :: row in t.rows && row.id == id ==> row.bannedAt.None? {
      forall i | 0 <= i < |t.rows| ensures UnbanUser(t, id).rows[i] == t.rows[i] {
        assert t.rows[i] in t.rows;
      }
      assert UnbanUser(t, id).rows == t.rows;
    }
  }

  /** The later ban wins. */
  lemma BanTwice(t: UserTable, id: int, first: Time, second: Time)
    ensures BanUser(BanUser(t, id, first), id, second) == BanUser(t, id, second)
  {
    assert BanUser(BanUser(t, id, first), id, second).rows == BanUser(t, id, second).rows;
  }

  /** The join condition of the active-user count: the user owns a package
      the quota queries would accept at `now`. */
  predicate OwnsEligible(packages: PackageStore.PackageTable, now: Time, id: int) {
    exists p :: p in packages.rows && p.userId == id && PackageStore.Eligible(p, now)
  }

  function JoinsEligible(packages: PackageStore.PackageTable, now: Time): UserRow -> bool {
    (row: UserRow) => OwnsEligible(packages, now, row.id)
  }

  function IsBanned(row: UserRow): bool { row.bannedAt.Some? }

  function IdOf(row: UserRow): int { row.id }

  /** GetUsersStat: every user row counted, the banned ones counted, and the
      distinct ids of users joined to at least one eligible package. */
  function GetUsersStat(t: UserTable, packages: PackageStore.PackageTable, now: Time): (r: UsersStat)
    ensures r.totalUsers == |t.rows|
    ensures r.totalBannedUsers <= r.totalUsers && r.totalActiveUsers <= r.totalUsers
    ensures r.totalBannedUsers == |Util.Select(t.rows, IsBanned)|
    ensures r.totalActiveUsers == |set row | row in t.rows && OwnsEligible(packages, now, row.id) :: row.id|
  {
    var joined := Util.Select(t.rows, JoinsEligible(packages, now));
    var ids := Util.Image(joined, IdOf);
    assert ids == set row | row in t.rows && OwnsEligible(packages, now, row.id) :: row.id;
    Util.ImageAtMost(joined, IdOf);
    UsersStat(|t.rows|, |ids|, |Util.Select(t.rows, IsBanned)|)
  }

  /** With unique ids the distinct count is a plain count of the users that
      own an eligible package. */
  lemma ActiveUsersCounted(t: UserTable, packages: PackageStore.PackageTable, now: Time)
    requires Valid(t)
    ensures GetUsersStat(t, packages, now).totalActiveUsers
         == |Util.Select(t.rows, JoinsEligible(packages, now))|
  {
    var joined := Util.Select(t.rows, JoinsEligible(packages, now));
    Util.SelectIncreasing(t.rows, JoinsEligible(packages, now), IdOf);
    Util.ImageOfInjective(joined, IdOf);
    assert Util.Image(joined, IdOf) == set row | row in t.rows && OwnsEligible(packages, now, row.id) :: row.id;
  }

  /** GetTotalUsersCount: the number of user rows; in a valid table, the
      number of distinct users. */
  function GetTotalUsersCount(t: UserTable): (r: int)
    ensures r >= 0
    ensures Valid(t) ==> r == |Util.Image(t.rows, IdOf)|
  {
    DistinctIds(t);
    |t.rows|
  }

  /** In a valid table every row is a different user. */
  lemma DistinctIds(t: UserTable)
    ensures Valid(t) ==> |Util.Image(t.rows, IdOf)| == |t.rows|
  {
    if Valid(t) {
      Util.ImageOfInjective(t.rows, IdOf);
    }
  }

  /** The user count reported alongside the statistics and the standalone
      count agree. */
  lemma TotalsAgree(t: UserTable, packages: PackageStore.PackageTable, now: Time)
    ensures GetTotalUsersCount(t) == GetUsersStat(t, packages, now).totalUsers
  {
  }

  /** GetAllUsers' filter: an exact name when one is given, everyone
      otherwise. */
  function NamedOrAll(name: string): UserRow -> bool {
    (row: UserRow) => name == "" || row.username == name
  }

  /** The ordering key of `created_at desc`. */
  function NewestCreated(row: UserRow): int { -row.createdAt }

  /** A window of a newest-first list is newest-first and drawn from it. */
  lemma PageOfSorted(sorted: seq<UserRow>, w: Scopes.Window)
    requires w.offset >= 0 && w.limit >= 0
    requires Sorting.SortedBy(sorted, NewestCreated)
    ensures var rows := Scopes.Page(sorted, w);
      forall i, j :: 0 <= i < j < |rows| ==> rows[i].createdAt >= rows[j].createdAt
    ensures forall row :: row in Scopes.Page(sorted, w) ==> row in sorted
  {
    Scopes.PageSorted(sorted, w, NewestCreated);
    var rows := Scopes.Page(sorted, w);
    forall i, j | 0 <= i < j < |rows| ensures rows[i].createdAt >= rows[j].createdAt {
      assert NewestCreated(rows[i]) <= NewestCreated(rows[j]);
    }
  }

  /** The rows GetAllUsers returns, before conversion. */
  function UserRows(t: UserTable, name: string, page: Pagination): (r: (seq<UserRow>, Pagination))
    ensures forall row :: row in r.0 ==> row in t.rows && NamedOrAll(name)(row)
    ensures forall i, j :: 0 <= i < j < |r.0| ==> r.0[i].createdAt >= r.0[j].createdAt
    ensures r.1.total == |Util.Select(t.rows, NamedOrAll(name))|
    ensures |r.0| <= r.1.pageSize
    ensures var matching := Util.Select(t.rows, NamedOrAll(name));
      var (q, w) := Scopes.Paginate(page, |matching|);
      r.1 == q && r.0 == Scopes.Page(Sorting.SortBy(matching, NewestCreated), w)
  {
    var matching := Util.Select(t.rows, NamedOrAll(name));
    var sorted := Sorting.SortBy(matching, NewestCreated);
    Sorting.SortedMembers(matching, sorted);
    var (q, w) := Scopes.Paginate(page, |matching|);
    PageOfSorted(sorted, w);
    (Scopes.Page(sorted, w), q)
  }

  /** GetAllUsers: users with exactly the given name (everyone when it is
      empty), newest first, one page of them, with the page totals set from
      the filtered count. */
  function GetAllUsers(t: UserTable, name: string, page: Pagination): (r: (seq<User>, Pagination))
    ensures name != "" ==> forall u :: u in r.0 ==> u.username == name
    ensures forall i, j :: 0 <= i < j < |r.0| ==> r.0[i].createdAt >= r.0[j].createdAt
    ensures forall u :: u in r.0 ==> exists row :: row in t.rows && ToUser(row) == u
    ensures r.1.total == |Util.Select(t.rows, NamedOrAll(name))|
    ensures |r.0| <= r.1.pageSize
    ensures var matching := Util.Select(t.rows, NamedOrAll(name));
      var (q, w) := Scopes.Paginate(page, |matching|);
      r.1 == q && r.0 == ToUsers(Scopes.Page(Sorting.SortBy(matching, NewestCreated), w))
  {
    var (rows, q) := UserRows(t, name, page);
    assert forall i :: 0 <= i < |rows| ==> rows[i] in rows;
    (ToUsers(rows), q)
  }

  /** Paging loses nothing: every user the name filter keeps is returned on
      some page, whatever the page size. */
  lemma EveryUserListed(t: UserTable, name: string, size: int, row: UserRow)
    requires 1 <= size <= Scopes.MaxPageSize
    requires row in t.rows && NamedOrAll(name)(row)
    ensures exists pg :: pg >= 1 && ToUser(row) in GetAllUsers(t, name, Pagination(pg, size, 0, 0)).0
  {
    var matching := Util.Select(t.rows, NamedOrAll(name));
    var sorted := Sorting.SortBy(matching, NewestCreated);
    Sorting.SortedMembers(matching, sorted);
    assert row in matching;
    assert row in sorted;
    var pg, j := Scopes.PlaceOf(sorted, size, row);
    var shown := Scopes.Page(sorted, Scopes.Paginate(Pagination(pg, size, 0, 0), |sorted|).1);
    assert GetAllUsers(t, name, Pagination(pg, size, 0, 0)).0 == ToUsers(shown);
    assert ToUsers(shown)[j] == ToUser(row);
  }
}
