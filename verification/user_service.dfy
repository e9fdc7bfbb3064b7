/** The user service (internal/service/user.go): creating a user with an
    optional trial package, changing a VPN password, banning and unbanning.
    The VPN server's account calls are recorded in order; each store query
    or VPN call that can fail has a fault parameter. */
module UserService {
  import opened Wrappers
  import opened Model
  import UserStore
  import PackageStore

  /** An account call to the VPN server. Changing a password is one call
      here; the client deletes and re-creates the account. */
  datatype VpnCall =
    | CreateAccount(username: string, password: string)
    | SetPassword(username: string, password: string)
    | Lock(username: string)
    | Unlock(username: string)

  /** The trial package settings. `trafficBytes` is the configured number of
      gigabytes already converted to bytes. */
  datatype TrialConfig = TrialConfig(activated: bool, trafficBytes: int, maxConnections: int, expirationInDays: int)

  /** A created user and the password the VPN account was given. */
  datatype Account = Account(user: User, password: string)

  datatype CreateReply = CreateReply(result: Result<Account>, vpnCalls: seq<VpnCall>, packages: PackageStore.PackageTable)

  /** The trial package requested for a new user. */
  function TrialRequest(user: User, trial: TrialConfig): (r: CreatePackageRequest)
    ensures r.isTrial && r.userId == user.id && r.traffic == trial.trafficBytes
  {
    CreatePackageRequest("", user.id, trial.trafficBytes, trial.maxConnections, true, trial.expirationInDays)
  }

  /** CreateUser. The user row is written first (`created` is the store's
      answer) and its failure returned as an internal error before anything
      else happens. The VPN account is then created under the requested name
      with the generated `password`; its failure is returned as an internal
      error too. Only then, and only when the trial is activated, is the
      trial package created; its failure is logged and the user is still
      returned. */
  function CreateUser(username: string, created: Result<User>, password: string, vpnFault: Option<Error>,
                      trial: TrialConfig, packages: PackageStore.PackageTable, now: Time, trialFault: Option<Error>)
    : (r: CreateReply)
    ensures created.Err? ==> r == CreateReply(Err(InternalError(created.error)), [], packages)
    ensures created.Ok? ==> r.vpnCalls == [CreateAccount(username, password)]
    ensures created.Ok? && vpnFault.Some? ==> r.result == Err(InternalError(vpnFault.value)) && r.packages == packages
    ensures created.Ok? && vpnFault.None? ==> r.result == Ok(Account(created.value, password))
    ensures !trial.activated ==> r.packages == packages
    ensures r.packages != packages ==>
      && trial.activated && created.Ok? && vpnFault.None?
      && var stored := PackageStore.CreatePackage(packages, TrialRequest(created.value, trial), now, trialFault);
         stored.Ok? && r.packages == stored.value
  {
    if created.Err? then CreateReply(Err(InternalError(created.error)), [], packages)
    else
      var calls := [CreateAccount(username, password)];
      if vpnFault.Some? then CreateReply(Err(InternalError(vpnFault.value)), calls, packages)
      else
        var after :=
          if !trial.activated then packages
          else
            match PackageStore.CreatePackage(packages, TrialRequest(created.value, trial), now, trialFault)
            case Ok(t) => t
            case Err(_) => packages;
        CreateReply(Ok(Account(created.value, password)), calls, after)
  }

  /** A new user's trial package is stored exactly when the trial is
      activated, and, since the user has no active package yet, it is
      stored as a reserve without a deadline. */
  lemma TrialIsReserved(username: string, user: User, password: string, trial: TrialConfig,
                        packages: PackageStore.PackageTable, now: Time)
    requires PackageStore.Valid(packages)
    requires forall p :: p in packages.rows ==> p.userId != user.id
    ensures var r := CreateUser(username, Ok(user), password, None, trial, packages, now, None);
      && r.result.Ok?
      && (!trial.activated ==> r.packages == packages)
      && (trial.activated ==>
            && |r.packages.rows| == |packages.rows| + 1
            && r.packages.rows[..|packages.rows|] == packages.rows
            && var p := r.packages.rows[|packages.rows|];
               p.isTrial && p.userId == user.id && p.trafficLimit == trial.trafficBytes && p.expireAt.None?)
  {
    if trial.activated {
      PackageStore.CreatePackageActivation(packages, TrialRequest(user, trial), now);
    }
  }

  datatype PasswordReply = PasswordReply(result: Result<string>, vpnCalls: seq<VpnCall>)

  /** ChangePassword. The name is looked up first: a record-not-found failure
      becomes the user-not-found sentinel and any other failure an internal
      error, with no VPN call. The lookup's rows are not inspected, so the
      VPN account of the name is given the new `password` whether or not a
      user of that name exists. */
  function ChangePassword(users: UserStore.UserTable, username: string, password: string,
                          lookupFault: Option<Error>, vpnFault: Option<Error>): (r: PasswordReply)
    ensures lookupFault == Some(RecordNotFound) ==> r == PasswordReply(Err(UserNotFound), [])
    ensures lookupFault.Some? && lookupFault.value != RecordNotFound ==>
      r == PasswordReply(Err(InternalError(lookupFault.value)), [])
    ensures lookupFault.None? ==> r.vpnCalls == [SetPassword(username, password)]
    ensures lookupFault.None? ==> r.result == if vpnFault.Some? then Err(InternalError(vpnFault.value)) else Ok(password)
  {
    if lookupFault.Some? then
      if lookupFault.value == RecordNotFound then PasswordReply(Err(UserNotFound), [])
      else PasswordReply(Err(InternalError(lookupFault.value)), [])
    else
      var _ := UserStore.GetUsersByUsernames(users, [username]);
      var calls := [SetPassword(username, password)];
      if vpnFault.Some? then PasswordReply(Err(InternalError(vpnFault.value)), calls)
      else PasswordReply(Ok(password), calls)
  }

  /** What BanUser and UnbanUser left behind: the user table, the VPN calls
      made, and the returned error. */
  datatype BanReply = BanReply(table: UserStore.UserTable, vpnCalls: seq<VpnCall>, outcome: Outcome)

  /** The user a ban or unban is about, or why there is none. */
  function Lookup(users: UserStore.UserTable, id: int, fault: Option<Error>): (r: Result<User>)
    ensures fault.Some? ==> r == Err(fault.value)
    ensures fault.None? ==> r == UserStore.GetUserByID(users, id)
  {
    if fault.Some? then Err(fault.value) else UserStore.GetUserByID(users, id)
  }

  /** BanUser: the user is looked up by id, the VPN account locked, and only
      then is the ban written; the first failure is returned and leaves the
      table as it was. */
  function BanUser(users: UserStore.UserTable, id: int, now: Time,
                   lookupFault: Option<Error>, lockFault: Option<Error>, writeFault: Option<Error>): (r: BanReply)
    ensures Lookup(users, id, lookupFault).Err? ==>
      r == BanReply(users, [], Fail(Lookup(users, id, lookupFault).error))
    ensures lookupFault.None? && (forall row :: row in users.rows ==> row.id != id) ==>
      r == BanReply(users, [], Fail(UserStore.Missing))
    ensures Lookup(users, id, lookupFault).Ok? ==> r.vpnCalls == [Lock(Lookup(users, id, lookupFault).value.username)]
    ensures lockFault.Some? ==> r.table == users && r.outcome.Fail?
    ensures r.table != users ==> r.outcome == Pass && |r.vpnCalls| == 1 && r.vpnCalls[0].Lock?
    ensures r.outcome == Pass <==> Lookup(users, id, lookupFault).Ok? && lockFault.None? && writeFault.None?
    ensures r.outcome == Pass ==> r.table == UserStore.BanUser(users, id, now)
  {
    match Lookup(users, id, lookupFault)
    case Err(e) => BanReply(users, [], Fail(e))
    case Ok(user) =>
      var calls := [Lock(user.username)];
      if lockFault.Some? then BanReply(users, calls, Fail(lockFault.value))
      else if writeFault.Some? then BanReply(users, calls, Fail(writeFault.value))
      else
        BanReply(UserStore.BanUser(users, id, now), calls, Pass)
  }

  /** UnbanUser: the user is looked up by id, the VPN account unlocked, and
      only then is the ban cleared; the first failure is returned and leaves
      the table as it was. */
  function UnbanUser(users: UserStore.UserTable, id: int,
                     lookupFault: Option<Error>, unlockFault: Option<Error>, writeFault: Option<Error>): (r: BanReply)
    ensures Lookup(users, id, lookupFault).Err? ==>
      r == BanReply(users, [], Fail(Lookup(users, id, lookupFault).error))
    ensures lookupFault.None? && (forall row :: row in users.rows ==> row.id != id) ==>
      r == BanReply(users, [], Fail(UserStore.Missing))
    ensures Lookup(users, id, lookupFault).Ok? ==> r.vpnCalls == [Unlock(Lookup(users, id, lookupFault).value.username)]
    ensures unlockFault.Some? ==> r.table == users && r.outcome.Fail?
    ensures r.table != users ==> r.outcome == Pass && |r.vpnCalls| == 1 && r.vpnCalls[0].Unlock?
    ensures r.outcome == Pass <==> Lookup(users, id, lookupFault).Ok? && unlockFault.None? && writeFault.None?
    ensures r.outcome == Pass ==> r.table == UserStore.UnbanUser(users, id)
  {
    match Lookup(users, id, lookupFault)
    case Err(e) => BanReply(users, [], Fail(e))
    case Ok(user) =>
      var calls := [Unlock(user.username)];
      if unlockFault.Some? then BanReply(users, calls, Fail(unlockFault.value))
      else if writeFault.Some? then BanReply(users, calls, Fail(writeFault.value))
      else
        BanReply(UserStore.UnbanUser(users, id), calls, Pass)
  }

  /** Banning and then unbanning a user, with nothing failing, locks and
      unlocks the same VPN account and leaves the user unbanned; a user who
      was not banned gets the table back exactly. */
  lemma UnbanUndoesBanUser(users: UserStore.UserTable, id: int, now: Time)
    requires exists row :: row in users.rows && row.id == id
    ensures var banned := BanUser(users, id, now, None, None, None);
      var unbanned := UnbanUser(banned.table, id, None, None, None);
      && banned.outcome == Pass && unbanned.outcome == Pass
      && banned.vpnCalls[0].username == unbanned.vpnCalls[0].username
      && unbanned.table == UserStore.UnbanUser(users, id)
      && ((forall row :: row in users.rows && row.id == id ==> row.bannedAt.None?) ==> unbanned.table == users)
  {
    var t1 := UserStore.BanUser(users, id, now);
    var row :| row in users.rows && row.id == id;
    var i :| 0 <= i < |users.rows| && users.rows[i] == row;
    assert t1.rows[i].id == id && t1.rows[i] in t1.rows;
    UserStore.GetUserByIDAgrees(users, t1, id);
    UserStore.UnbanUndoesBan(users, id, now);
  }
}
