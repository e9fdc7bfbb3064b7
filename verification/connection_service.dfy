/** The connection service's calls that reach beyond one store
    (internal/service/connection.go): DisconnectID, GetSystemStatus, and the
    reconciliation cycle fed from the stores themselves. */
module ConnectionService {
  import opened Wrappers
  import opened Model
  import opened ConnectionModel
  import Util
  import ConnectionStore
  import UserStore
  import PackageStore
  import Reconcile

  /** The state of the three tables the service reads and writes. */
  datatype Stores = Stores(
    connections: ConnectionStore.ConnectionTable,
    users: UserStore.UserTable,
    packages: PackageStore.PackageTable)

  /** What DisconnectID left behind: the connection table, the external ids
      the VPN server was asked to disconnect, and the returned error. */
  datatype DisconnectReply = DisconnectReply(table: ConnectionStore.ConnectionTable, vpnCalls: seq<string>, outcome: Outcome)

  /** DisconnectID: the row is marked disconnected in the store, then the VPN
      server is asked to end the session under the external id the store
      returned. A failing store update (`storeFault`) is returned before the
      VPN server is contacted; the VPN server's own failure is `vpnFault`. */
  function DisconnectID(t: ConnectionStore.ConnectionTable, id: int, now: Time,
                        storeFault: Option<Error>, vpnFault: Option<Error>): (r: DisconnectReply)
    ensures storeFault.Some? ==> r == DisconnectReply(t, [], Fail(storeFault.value))
    ensures storeFault.None? ==> |r.vpnCalls| == 1 && r.outcome == (if vpnFault.Some? then Fail(vpnFault.value) else Pass)
    ensures storeFault.None? && ConnectionStore.Valid(t) ==>
      forall i :: 0 <= i < |t.rows| && t.rows[i].id == id ==> r.vpnCalls == [t.rows[i].externalId]
    ensures storeFault.None? && (forall i :: 0 <= i < |t.rows| ==> t.rows[i].id != id) ==>
      r.table == t && r.vpnCalls == [""]
    ensures storeFault.None? ==> |r.table.rows| == |t.rows|
    ensures storeFault.None? ==>
      forall i :: 0 <= i < |t.rows| && t.rows[i].id != id ==> r.table.rows[i] == t.rows[i]
  {
    if storeFault.Some? then DisconnectReply(t, [], Fail(storeFault.value))
    else
      var (t1, ext) := ConnectionStore.DisconnectID(t, id, now);
      DisconnectReply(t1, [ext], if vpnFault.Some? then Fail(vpnFault.value) else Pass)
  }

  /** After DisconnectID the connection is no longer among anyone's active
      connections, whether or not the VPN server then succeeded. */
  lemma DisconnectIDEndsSession(t: ConnectionStore.ConnectionTable, id: int, now: Time,
                                vpnFault: Option<Error>, username: string)
    ensures var r := DisconnectID(t, id, now, None, vpnFault);
      forall c :: c in ConnectionStore.GetUserActiveConnections(r.table, username) ==> c.id != id
  {
    var r := DisconnectID(t, id, now, None, vpnFault);
    forall c | c in ConnectionStore.GetUserActiveConnections(r.table, username) ensures c.id != id {
      var row :| row in r.table.rows && ToConnection(row) == c;
      var i :| 0 <= i < |r.table.rows| && r.table.rows[i] == row;
      assert row.status == StatusConnected;
    }
  }

  /** GetSystemStatus: the connection store's figures with the user total
      replaced by the user store's count. Either read's error is returned,
      the connection store's first. */
  function GetSystemStatus(s: Stores, statusFault: Option<Error>, countFault: Option<Error>): (r: Result<SystemStatus>)
    ensures statusFault.Some? ==> r == Err(statusFault.value)
    ensures statusFault.None? && countFault.Some? ==> r == Err(countFault.value)
    ensures r.Ok? <==> statusFault.None? && countFault.None?
    ensures r.Ok? ==> r.value.totalUsers == |s.users.rows|
    ensures r.Ok? ==> r.value.onlineUsers <= r.value.totalActiveConnections
    ensures r.Ok? ==> var rows := s.connections.rows;
      && r.value.totalActiveConnections == |Util.Select(rows, ConnectionStore.IsConnectedRow)|
      && r.value.onlineUsers == |set row | row in rows && row.status == StatusConnected :: row.username|
      && r.value.totalDownload == Util.Sum(rows, ConnectionStore.DownloadOf)
      && r.value.totalUpload == Util.Sum(rows, ConnectionStore.UploadOf)
  {
    if statusFault.Some? then Err(statusFault.value)
    else if countFault.Some? then Err(countFault.value)
    else
      var status := ConnectionStore.GetSystemStatus(s.connections);
      Ok(status.(totalUsers := UserStore.GetTotalUsersCount(s.users)))
  }

  /** The user total the service reports is the one the user statistics
      report, and on a valid table it is the number of distinct users. */
  lemma SystemStatusAgreesWithUsersStat(s: Stores, now: Time)
    ensures var r := GetSystemStatus(s, None, None);
      && r.value.totalUsers == UserStore.GetUsersStat(s.users, s.packages, now).totalUsers
      && (UserStore.Valid(s.users) ==> r.value.totalUsers == |Util.Image(s.users.rows, UserStore.IdOf)|)
      && r.value.totalDownload == ConnectionStore.GetSystemStatus(s.connections).totalDownload
  {
    UserStore.TotalsAgree(s.users, s.packages, now);
  }

  /** Failures of the three reads at the start of a cycle. */
  datatype ReadFaults = ReadFaults(connections: Option<Error>, users: Option<Error>, packages: Option<Error>)

  function ReadOr<T>(fault: Option<Error>, value: T): (r: Result<T>)
    ensures fault.Some? <==> r.Err?
    ensures r.Ok? ==> r.value == value
  {
    if fault.Some? then Err(fault.value) else Ok(value)
  }

  /** All connected rows, as ManageActiveConnections asks for them: no
      username, no page. */
  function ConnectedNow(s: Stores): seq<Connection> {
    ConnectionStore.GetActiveConnections(s.connections, "", None).0
  }

  /** The ids of the users GetUsersByUsernames returned, in order. */
  function UserIds(users: seq<User>): (r: seq<int>)
    ensures |r| == |users| && forall i :: 0 <= i < |users| ==> r[i] == users[i].id
  {
    seq(|users|, i requires 0 <= i < |users| => users[i].id)
  }

  /** The users named by the connected rows. The usernames are passed in the
      grouping map's key order `order`, which does not change the result. */
  function UsersOf(s: Stores, order: seq<string>): seq<User> {
    UserStore.GetUsersByUsernames(s.users, order)
  }

  /** The package groups of those users. `packageOrder` is the iteration
      order of the store's grouping map. */
  function GroupsOf(s: Stores, order: seq<string>, now: Time, packageOrder: seq<int>): seq<UserPackages>
    requires Util.IsEnumeration(packageOrder, PackageStore.GroupScan(PackageStore.BatchScan(s.packages, UserIds(UsersOf(s, order)), now)).Keys)
  {
    PackageStore.GetUsersActiveAndReservedPackages(s.packages, UserIds(UsersOf(s, order)), now, packageOrder)
  }

  /** ManageActiveConnections reading its three inputs from the stores: the
      connected rows, the users they name and those users' package groups,
      each read possibly failing. `order` is the iteration order of the map
      grouping the rows by username. */
  function ManageActiveConnections(s: Stores, now: Time, cutoff: Time, order: seq<string>, packageOrder: seq<int>,
                                   readFaults: ReadFaults, nonFinite: int, faults: Reconcile.Faults): (r: Reconcile.Run)
    requires Util.IsEnumeration(order, Util.MapElementsBy(ConnectedNow(s), UsernameOf).Keys)
    requires Util.IsEnumeration(packageOrder, PackageStore.GroupScan(PackageStore.BatchScan(s.packages, UserIds(UsersOf(s, order)), now)).Keys)
    ensures readFaults.connections.Some? ==> r == Reconcile.Run([], readFaults.connections)
    ensures readFaults.connections.None? && readFaults.users.Some? ==> r == Reconcile.Run([], readFaults.users)
    ensures readFaults.connections.None? && readFaults.users.None? && readFaults.packages.Some? ==> r == Reconcile.Run([], readFaults.packages)
    ensures readFaults == ReadFaults(None, None, None) ==>
      && Reconcile.StopsAtFailingDebit(r, faults)
      && Reconcile.EvenDebits(r.trace)
      && Reconcile.MarksWithin(r.trace, ConnectedNow(s))
      && Reconcile.NamesWithin(r.trace, set c | c in ConnectedNow(s) :: c.username)
  {
    Reconcile.ManageActiveConnections(
      ReadOr(readFaults.connections, ConnectedNow(s)),
      ReadOr(readFaults.users, UsersOf(s, order)),
      ReadOr(readFaults.packages, GroupsOf(s, order, now, packageOrder)),
      order, cutoff, nonFinite, faults)
  }

  /** Every package group read from the store has the zero package as its
      active package, since the batch lookup never stores the active one. */
  lemma StoreGroupsHaveNoActive(s: Stores, order: seq<string>, now: Time, packageOrder: seq<int>)
    requires Util.IsEnumeration(packageOrder, PackageStore.GroupScan(PackageStore.BatchScan(s.packages, UserIds(UsersOf(s, order)), now)).Keys)
    ensures var m := Util.MapUniqueElementsBy(GroupsOf(s, order, now, packageOrder), GroupOwner);
      forall id :: id in m ==> m[id].active == ZeroPackage
  {
    ZeroActiveSurvivesKeying(GroupsOf(s, order, now, packageOrder));
  }

  /** Keying groups by owner keeps only groups of the list. */
  lemma ZeroActiveSurvivesKeying(gs: seq<UserPackages>)
    requires forall i :: 0 <= i < |gs| ==> gs[i].active == ZeroPackage
    ensures var m := Util.MapUniqueElementsBy(gs, GroupOwner);
      forall id :: id in m ==> m[id].active == ZeroPackage
  {
    var m := Util.MapUniqueElementsBy(gs, GroupOwner);
    forall id | id in m ensures m[id].active == ZeroPackage {
      assert Util.IsLastWithKey(gs, GroupOwner, id, m[id]);
    }
  }

  /** With the stores as inputs, every admitted user with traffic goes down
      the overage path: nothing is charged without usage, and with usage a
      user whose processing did not abort is charged at most the usage, and
      all of it but for one unit when the user was not disconnected. */
  lemma StoreCycleCharges(s: Stores, order: seq<string>, now: Time, packageOrder: seq<int>, cutoff: Time,
                          nonFinite: int, faults: Reconcile.Faults, k: string)
    requires Util.IsEnumeration(packageOrder, PackageStore.GroupScan(PackageStore.BatchScan(s.packages, UserIds(UsersOf(s, order)), now)).Keys)
    requires k in Util.MapElementsBy(ConnectedNow(s), UsernameOf)
    requires var users := Util.MapUniqueElementsBy(UsersOf(s, order), UserName);
      var packages := Util.MapUniqueElementsBy(GroupsOf(s, order, now, packageOrder), GroupOwner);
      Reconcile.Admitted(k, users, packages)
    requires Util.Sum(Util.MapElementsBy(ConnectedNow(s), UsernameOf)[k], Reconcile.DownloadOf) != 0
    ensures var users := Util.MapUniqueElementsBy(UsersOf(s, order), UserName);
      var packages := Util.MapUniqueElementsBy(GroupsOf(s, order, now, packageOrder), GroupOwner);
      var conns := Util.MapElementsBy(ConnectedNow(s), UsernameOf)[k];
      var r := Reconcile.ProcessUser(k, conns, users, packages, cutoff, nonFinite, faults);
      var usage := Util.Sum(conns, Reconcile.TrafficOf);
      && (usage <= 0 ==> Util.Sum(r.trace, Reconcile.ChargeOf) == 0)
      && (usage > 0 && r.error.None? ==> Util.Sum(r.trace, Reconcile.ChargeOf) <= usage)
      && (usage > 0 && r.error.None? && Reconcile.DisconnectUser(k) !in r.trace ==>
            usage - 1 <= Util.Sum(r.trace, Reconcile.ChargeOf))
  {
    var users := Util.MapUniqueElementsBy(UsersOf(s, order), UserName);
    var packages := Util.MapUniqueElementsBy(GroupsOf(s, order, now, packageOrder), GroupOwner);
    var conns := Util.MapElementsBy(ConnectedNow(s), UsernameOf)[k];
    StoreGroupsHaveNoActive(s, order, now, packageOrder);
    Reconcile.OverageCharged(k, conns, users, packages, cutoff, nonFinite, faults);
  }
}
