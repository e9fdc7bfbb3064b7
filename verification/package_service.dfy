/** The package service (internal/service/package.go): a user's packages,
    the package listing with owners' names filled in, and buying a package.
    The user and package stores are the collaborators; each query of theirs
    that can fail in the database has a fault parameter. */
module PackageService {
  import opened Wrappers
  import opened Model
  import Util
  import UserStore
  import PackageStore
  import Bytes

  /** GetUserActivePackages' answer, and whether the package store was
      queried at all. */
  datatype ActiveReply = ActiveReply(result: Result<UserPackages>, packagesQueried: bool)

  /** GetUserActivePackages. The user is looked up by name: a record-not-found
      failure becomes the user-not-found sentinel and any other failure an
      internal error; no match is user-not-found and a banned first match is
      user-banned, all without touching the package store. The package
      lookup's record-not-found becomes no-active-package and its other
      failures internal errors. */
  function GetUserActivePackages(users: UserStore.UserTable, packages: PackageStore.PackageTable, username: string,
                                 now: Time, usersFault: Option<Error>, packagesFault: Option<Error>): (r: ActiveReply)
    ensures usersFault == Some(RecordNotFound) ==> r == ActiveReply(Err(UserNotFound), false)
    ensures usersFault.Some? && usersFault.value != RecordNotFound ==>
      r == ActiveReply(Err(InternalError(usersFault.value)), false)
    ensures usersFault.None? && (forall row :: row in users.rows ==> row.username != username) ==>
      r == ActiveReply(Err(UserNotFound), false)
    ensures r.result == Err(UserBanned) ==>
      !r.packagesQueried && exists row :: row in users.rows && row.username == username && row.bannedAt.Some?
    ensures r.packagesQueried <==> usersFault.None? && r.result != Err(UserNotFound) && r.result != Err(UserBanned)
    ensures r.packagesQueried ==> exists row :: row in users.rows && row.username == username && row.bannedAt.None?
    ensures r.packagesQueried && packagesFault == Some(RecordNotFound) ==> r.result == Err(NoActivePackage)
    ensures r.packagesQueried && packagesFault.Some? && packagesFault.value != RecordNotFound ==>
      r.result == Err(InternalError(packagesFault.value))
    ensures r.result.Ok? ==> r.packagesQueried && packagesFault.None?
    ensures r.result.Ok? ==>
      exists row :: row in users.rows && row.username == username && row.bannedAt.None? &&
        r.result.value == PackageStore.GetUserActiveAndReservedPackages(packages, row.id, now)
  {
    if usersFault.Some? then
      if usersFault.value == RecordNotFound then ActiveReply(Err(UserNotFound), false)
      else ActiveReply(Err(InternalError(usersFault.value)), false)
    else
      var found := UserStore.GetUsersByUsernames(users, [username]);
      if |found| == 0 then ActiveReply(Err(UserNotFound), false)
      else
        var user := found[0];
        assert user in found;
        if user.bannedAt.Some? then ActiveReply(Err(UserBanned), false)
        else if packagesFault.Some? then
          if packagesFault.value == RecordNotFound then ActiveReply(Err(NoActivePackage), true)
          else ActiveReply(Err(InternalError(packagesFault.value)), true)
        else ActiveReply(Ok(PackageStore.GetUserActiveAndReservedPackages(packages, user.id, now)), true)
  }

  /** With the stores answering: an unknown name is user-not-found; a name
      all of whose users are banned is user-banned; a name none of whose
      users is banned gets that user's packages. */
  lemma ActivePackagesByName(users: UserStore.UserTable, packages: PackageStore.PackageTable, username: string, now: Time)
    ensures var r := GetUserActivePackages(users, packages, username, now, None, None);
      && ((forall row :: row in users.rows ==> row.username != username) ==> r.result == Err(UserNotFound))
      && ((exists row :: row in users.rows && row.username == username) &&
          (forall row :: row in users.rows && row.username == username ==> row.bannedAt.Some?) ==>
            r.result == Err(UserBanned))
      && ((exists row :: row in users.rows && row.username == username) &&
          (forall row :: row in users.rows && row.username == username ==> row.bannedAt.None?) ==>
            r.result.Ok?)
  {
    var found := UserStore.GetUsersByUsernames(users, [username]);
    if exists row :: row in users.rows && row.username == username {
      var row :| row in users.rows && row.username == username;
      assert UserStore.ToUser(row) in found;
      var user := found[0];
      assert user in found;
      var urow :| urow in users.rows && urow.username in [username] && UserStore.ToUser(urow) == user;
      assert urow.username == username;
    }
  }

  /** A listing request: the page, and the owner by name or by id. */
  datatype PackagesQuery = PackagesQuery(page: Pagination, username: string, userId: int)

  /** One page of packages and the page totals. */
  datatype PackagesPage = PackagesPage(packages: seq<Package>, page: Pagination)

  /** The zero value of the listing response. */
  const EmptyPage: PackagesPage := PackagesPage([], Pagination(0, 0, 0, 0))

  /** Failures of the three queries GetPackages makes: the owner lookup, the
      package query, and the lookup of the listed packages' owners. */
  datatype PackagesFaults = PackagesFaults(owner: Option<Error>, query: Option<Error>, owners: Option<Error>)

  /** How the owner of a listing request is settled. */
  datatype Owner = OwnerId(id: int) | Answer(page: PackagesPage) | Failed(error: Error)

  /** `errors.Is(err, ErrUserNotFound)`: only the sentinel itself matches. */
  function IsSentinel(e: Error): bool {
    e == UserNotFound
  }

  /** A not-found error about a user, whether the sentinel or a fresh error
      carrying its message. */
  function IsUserNotFound(e: Error): bool {
    e == UserNotFound || e == NotFound(Message(UserNotFound))
  }

  /** The owner of a listing request. A name is looked up; a lookup error
      `notFound` accepts ends the request with the empty listing, any other
      is returned. Without a name the request's own id is used. */
  function ResolveOwner(users: UserStore.UserTable, q: PackagesQuery, fault: Option<Error>, notFound: Error -> bool)
    : (r: Owner)
    ensures q.username == "" ==> r == OwnerId(q.userId)
    ensures q.username != "" && fault.Some? ==>
      r == if notFound(fault.value) then Answer(EmptyPage) else Failed(fault.value)
    ensures q.username != "" && fault.None? ==>
      (r.OwnerId? <==> exists row :: row in users.rows && row.username == q.username)
    ensures q.username != "" && r.OwnerId? ==>
      fault.None? && exists row :: row in users.rows && row.username == q.username && row.id == r.id
  {
    if q.username == "" then OwnerId(q.userId)
    else
      var lookup := if fault.Some? then Err(fault.value) else UserStore.GetUserByUsername(users, q.username);
      match lookup
      case Ok(u) =>
        UserStore.GetUserByUsernameStored(users, q.username);
        OwnerId(u.id)
      case Err(e) => if notFound(e) then Answer(EmptyPage) else Failed(e)
  }

  /** The packages renamed after their owner. */
  function Named(ps: seq<Package>, name: string): (r: seq<Package>)
    ensures |r| == |ps|
    ensures forall p :: p in r <==> exists q :: q in ps && p == q.(username := name)
    decreases |ps|
  {
    if |ps| == 0 then []
    else
      assert forall q :: q in ps ==> q == ps[0] || q in ps[1..];
      [ps[0].(username := name)] + Named(ps[1..], name)
  }

  /** The groups of the listed owners, in the order `order`, each renamed
      after its owner; the group of an owner who was not found is dropped. */
  function Attach(order: seq<int>, groups: map<int, seq<Package>>, owners: map<int, User>): (r: seq<Package>)
    requires forall k :: k in order ==> k in groups
    ensures forall p :: p in r <==>
      exists k :: k in order && k in owners && p in Named(groups[k], owners[k].username)
    decreases |order|
  {
    if |order| == 0 then []
    else
      var k := order[0];
      var rest := Attach(order[1..], groups, owners);
      assert forall j :: j in order <==> j == k || j in order[1..];
      if k in owners then Named(groups[k], owners[k].username) + rest else rest
  }

  /** A renamed package in the fill's output comes from a listed package
      whose owner was found. */
  lemma AttachedFromInput(packages: seq<Package>, named: map<int, User>, order: seq<int>, p: Package)
    requires Util.IsEnumeration(order, Util.MapElementsBy(packages, PackageOwner).Keys)
    requires p in Attach(order, Util.MapElementsBy(packages, PackageOwner), named)
    ensures exists q :: q in packages && q.userId in named && p == q.(username := named[q.userId].username)
  {
    var groups := Util.MapElementsBy(packages, PackageOwner);
    var k :| k in order && k in named && p in Named(groups[k], named[k].username);
    var q: Package :| q in groups[k] && p == q.(username := named[k].username);
    assert q in packages && PackageOwner(q) == k;
  }

  /** Every listed package whose owner was found is in the fill's output,
      renamed. */
  lemma AttachedHasInput(packages: seq<Package>, named: map<int, User>, order: seq<int>, q: Package)
    requires Util.IsEnumeration(order, Util.MapElementsBy(packages, PackageOwner).Keys)
    requires q in packages && q.userId in named
    ensures q.(username := named[q.userId].username) in Attach(order, Util.MapElementsBy(packages, PackageOwner), named)
  {
    var groups := Util.MapElementsBy(packages, PackageOwner);
    var j :| 0 <= j < |packages| && packages[j] == q;
    assert PackageOwner(packages[j]) == q.userId;
    assert q.userId in groups;
    Util.FilterHas(packages, PackageOwner, q.userId);
    assert q in groups[q.userId];
    assert q.(username := named[q.userId].username) in Named(groups[q.userId], named[q.userId].username);
  }

  /** The fill's output is exactly the listed packages whose owner was
      found, renamed. */
  lemma AttachedExactly(packages: seq<Package>, named: map<int, User>, order: seq<int>)
    requires Util.IsEnumeration(order, Util.MapElementsBy(packages, PackageOwner).Keys)
    ensures forall p :: p in Attach(order, Util.MapElementsBy(packages, PackageOwner), named) <==>
      exists q :: q in packages && q.userId in named && p == q.(username := named[q.userId].username)
  {
    var r := Attach(order, Util.MapElementsBy(packages, PackageOwner), named);
    forall p | p in r
      ensures exists q :: q in packages && q.userId in named && p == q.(username := named[q.userId].username)
    {
      AttachedFromInput(packages, named, order, p);
    }
    forall q | q in packages && q.userId in named ensures q.(username := named[q.userId].username) in r {
      AttachedHasInput(packages, named, order, q);
    }
  }

  /** fillPackagesUsernames: the packages are grouped by owner, the owners
      are looked up, and each group whose owner was found is emitted with the
      owner's name, in the grouping map's iteration order `order`. A failing
      owner lookup is returned. */
  function FillPackagesUsernames(packages: seq<Package>, owners: Result<seq<User>>, order: seq<int>)
    : (r: Result<seq<Package>>)
    requires Util.IsEnumeration(order, Util.MapElementsBy(packages, PackageOwner).Keys)
    ensures owners.Err? ==> r == Err(owners.error)
    ensures owners.Ok? ==> r.Ok?
    ensures owners.Ok? ==> var named := Util.MapUniqueElementsBy(owners.value, UserId);
      forall p :: p in r.value <==>
        exists q :: q in packages && q.userId in named && p == q.(username := named[q.userId].username)
  {
    if owners.Err? then Err(owners.error)
    else
      var groups := Util.MapElementsBy(packages, PackageOwner);
      var named := Util.MapUniqueElementsBy(owners.value, UserId);
      AttachedExactly(packages, named, order);
      var r := Attach(order, groups, named);
      Ok(r)
  }

  /** The owners of the listed packages, as GetUsersByIDs returns them for
      the grouping map's keys. */
  function OwnersOf(users: UserStore.UserTable, order: seq<int>, fault: Option<Error>): (r: Result<seq<User>>)
    ensures fault.Some? ==> r == Err(fault.value)
    ensures fault.None? ==> r.Ok? && forall u :: u in r.value ==> u.id in order
  {
    if fault.Some? then Err(fault.value) else Ok(UserStore.GetUsersByIDs(users, order))
  }

  /** The page the package store returns once the owner is settled. */
  function QueriedPage(packages: PackageStore.PackageTable, q: PackagesQuery, id: int): (seq<Package>, Pagination) {
    PackageStore.GetPackages(packages, id, q.page)
  }

  /** GetPackages with the not-found test `notFound`: settle the owner, query
      the page, then fill in the owners' names; the first failure is
      returned. `order` is the iteration order of the fill's grouping map. */
  function Listing(users: UserStore.UserTable, packages: PackageStore.PackageTable, q: PackagesQuery,
                   faults: PackagesFaults, order: seq<int>, notFound: Error -> bool): (r: Result<PackagesPage>)
    requires var owner := ResolveOwner(users, q, faults.owner, notFound);
      owner.OwnerId? ==> Util.IsEnumeration(order, Util.MapElementsBy(QueriedPage(packages, q, owner.id).0, PackageOwner).Keys)
    ensures var owner := ResolveOwner(users, q, faults.owner, notFound);
      && (owner.Answer? ==> r == Ok(owner.page))
      && (owner.Failed? ==> r == Err(owner.error))
      && (owner.OwnerId? && faults.query.Some? ==> r == Err(faults.query.value))
      && (owner.OwnerId? && faults.query.None? && faults.owners.Some? ==> r == Err(faults.owners.value))
      && (owner.OwnerId? && faults.query.None? && faults.owners.None? ==> r.Ok?)
      && (owner.OwnerId? && r.Ok? ==>
            r.value.page == QueriedPage(packages, q, owner.id).1 &&
            forall p :: p in r.value.packages ==>
              p.userId in order && exists row :: row in users.rows && row.id == p.userId && row.username == p.username)
      && (owner.OwnerId? && r.Ok? ==>
            forall x :: x in QueriedPage(packages, q, owner.id).0 && (exists row :: row in users.rows && row.id == x.userId) ==>
              exists row :: row in users.rows && row.id == x.userId && x.(username := row.username) in r.value.packages)
  {
    match ResolveOwner(users, q, faults.owner, notFound)
    case Answer(page) => Ok(page)
    case Failed(e) => Err(e)
    case OwnerId(id) =>
      if faults.query.Some? then Err(faults.query.value)
      else
        var (ps, page) := QueriedPage(packages, q, id);
        var owners := OwnersOf(users, order, faults.owners);
        match FillPackagesUsernames(ps, owners, order)
        case Err(e) => Err(e)
        case Ok(filled) =>
          FilledFromTable(users, order, ps, filled);
          FilledComplete(users, order, ps, filled);
          Ok(PackagesPage(filled, page))
  }

  /** Packages named from the owners GetUsersByIDs found carry a stored
      user's id and name. */
  lemma FilledFromTable(users: UserStore.UserTable, order: seq<int>, ps: seq<Package>, filled: seq<Package>)
    requires var named := Util.MapUniqueElementsBy(UserStore.GetUsersByIDs(users, order), UserId);
      forall p :: p in filled <==>
        exists q :: q in ps && q.userId in named && p == q.(username := named[q.userId].username)
    ensures forall p :: p in filled ==>
      p.userId in order && exists row :: row in users.rows && row.id == p.userId && row.username == p.username
  {
    var owners := UserStore.GetUsersByIDs(users, order);
    var named := Util.MapUniqueElementsBy(owners, UserId);
    forall p | p in filled
      ensures p.userId in order && exists row :: row in users.rows && row.id == p.userId && row.username == p.username
    {
      var x :| x in ps && x.userId in named && p == x.(username := named[x.userId].username);
      var u := named[x.userId];
      assert Util.IsLastWithKey(owners, UserId, x.userId, u);
      assert u in owners && u.id == x.userId;
      var row :| row in users.rows && row.id in order && UserStore.ToUser(row) == u;
      assert row.id == p.userId && row.username == p.username;
    }
  }

  /** Every queried package whose owner is stored comes back, renamed after
      a stored user with that id: the owner lookup finds every id the
      grouping map lists. */
  lemma FilledComplete(users: UserStore.UserTable, order: seq<int>, ps: seq<Package>, filled: seq<Package>)
    requires Util.IsEnumeration(order, Util.MapElementsBy(ps, PackageOwner).Keys)
    requires var named := Util.MapUniqueElementsBy(UserStore.GetUsersByIDs(users, order), UserId);
      forall p :: p in filled <==>
        exists q :: q in ps && q.userId in named && p == q.(username := named[q.userId].username)
    ensures forall x :: x in ps && (exists row :: row in users.rows && row.id == x.userId) ==>
      exists row :: row in users.rows && row.id == x.userId && x.(username := row.username) in filled
  {
    forall x | x in ps && (exists row :: row in users.rows && row.id == x.userId)
      ensures exists row :: row in users.rows && row.id == x.userId && x.(username := row.username) in filled
    {
      var i :| 0 <= i < |ps| && ps[i] == x;
      assert PackageOwner(ps[i]) == x.userId;
      assert x.userId in Util.MapElementsBy(ps, PackageOwner);
      var row := OwnerFound(users, order, x.userId);
      FilledHas(users, order, ps, filled, x, row);
    }
  }

  /** One queried package whose owner the lookup found is in the output. */
  lemma FilledHas(users: UserStore.UserTable, order: seq<int>, ps: seq<Package>, filled: seq<Package>,
                  x: Package, row: UserStore.UserRow)
    requires var named := Util.MapUniqueElementsBy(UserStore.GetUsersByIDs(users, order), UserId);
      forall p :: p in filled <==>
        exists q :: q in ps && q.userId in named && p == q.(username := named[q.userId].username)
    requires var named := Util.MapUniqueElementsBy(UserStore.GetUsersByIDs(users, order), UserId);
      x in ps && x.userId in named && row.username == named[x.userId].username
    ensures x.(username := row.username) in filled
  {
  }

  /** An id the owner lookup asks for and the user table holds is in the
      lookup's index, under a stored user with that id. */
  lemma OwnerFound(users: UserStore.UserTable, order: seq<int>, id: int) returns (row: UserStore.UserRow)
    requires id in order && exists row :: row in users.rows && row.id == id
    ensures var named := Util.MapUniqueElementsBy(UserStore.GetUsersByIDs(users, order), UserId);
      id in named && row in users.rows && row.id == id && row.username == named[id].username
  {
    var owners := UserStore.GetUsersByIDs(users, order);
    var named := Util.MapUniqueElementsBy(owners, UserId);
    var stored :| stored in users.rows && stored.id == id;
    assert UserStore.ToUser(stored) in owners;
    var k :| 0 <= k < |owners| && owners[k] == UserStore.ToUser(stored);
    assert UserId(owners[k]) == id;
    var u := named[id];
    assert Util.IsLastWithKey(owners, UserId, id, u);
    assert u in owners && u.id == id;
    row :| row in users.rows && row.id in order && UserStore.ToUser(row) == u;
  }

  /** GetPackages as written: only the not-found sentinel itself yields the
      empty listing. */
  function GetPackages(users: UserStore.UserTable, packages: PackageStore.PackageTable, q: PackagesQuery,
                       faults: PackagesFaults, order: seq<int>): (r: Result<PackagesPage>)
    requires var owner := ResolveOwner(users, q, faults.owner, IsSentinel);
      owner.OwnerId? ==> Util.IsEnumeration(order, Util.MapElementsBy(QueriedPage(packages, q, owner.id).0, PackageOwner).Keys)
    ensures q.username != "" && faults.owner == Some(UserNotFound) ==> r == Ok(EmptyPage)
    ensures q.username != "" && faults.owner.Some? && faults.owner.value != UserNotFound ==> r == Err(faults.owner.value)
    ensures q.username == "" && faults.query.Some? ==> r == Err(faults.query.value)
    ensures r.Ok? && r != Ok(EmptyPage) ==>
      forall p :: p in r.value.packages ==> exists row :: row in users.rows && row.id == p.userId && row.username == p.username
    ensures var owner := ResolveOwner(users, q, faults.owner, IsSentinel);
      owner.OwnerId? && faults.query.None? && faults.owners.None? ==>
        && r.Ok?
        && r.value.page == QueriedPage(packages, q, owner.id).1
        && forall x :: x in QueriedPage(packages, q, owner.id).0 && (exists row :: row in users.rows && row.id == x.userId) ==>
             exists row :: row in users.rows && row.id == x.userId && x.(username := row.username) in r.value.packages
  {
    Listing(users, packages, q, faults, order, IsSentinel)
  }

  /** As written, a request naming a user who does not exist fails with the
      user store's fresh not-found error instead of returning the empty
      listing: that error is not the sentinel it is compared with. */
  lemma GetPackagesUnknownUserFails(users: UserStore.UserTable, packages: PackageStore.PackageTable, q: PackagesQuery,
                                    order: seq<int>)
    requires q.username != ""
    requires forall row :: row in users.rows ==> row.username != q.username
    ensures var r := GetPackages(users, packages, q, PackagesFaults(None, None, None), order);
      r == Err(UserStore.Missing) && Message(r.error) == Message(UserNotFound)
  {
  }

  /** GetPackages as evidently intended: the repository's not-found error
      about a user also yields the empty listing. */
  function GetPackagesIntended(users: UserStore.UserTable, packages: PackageStore.PackageTable, q: PackagesQuery,
                               faults: PackagesFaults, order: seq<int>): (r: Result<PackagesPage>)
    requires var owner := ResolveOwner(users, q, faults.owner, IsUserNotFound);
      owner.OwnerId? ==> Util.IsEnumeration(order, Util.MapElementsBy(QueriedPage(packages, q, owner.id).0, PackageOwner).Keys)
    ensures q.username != "" && faults.owner.Some? && IsUserNotFound(faults.owner.value) ==> r == Ok(EmptyPage)
    ensures q.username != "" && faults.owner.Some? && !IsUserNotFound(faults.owner.value) ==> r == Err(faults.owner.value)
    ensures q.username == "" && faults.query.Some? ==> r == Err(faults.query.value)
    ensures r.Ok? && r != Ok(EmptyPage) ==>
      forall p :: p in r.value.packages ==> exists row :: row in users.rows && row.id == p.userId && row.username == p.username
    ensures var owner := ResolveOwner(users, q, faults.owner, IsUserNotFound);
      owner.OwnerId? && faults.query.None? && faults.owners.None? ==>
        && r.Ok?
        && r.value.page == QueriedPage(packages, q, owner.id).1
        && forall x :: x in QueriedPage(packages, q, owner.id).0 && (exists row :: row in users.rows && row.id == x.userId) ==>
             exists row :: row in users.rows && row.id == x.userId && x.(username := row.username) in r.value.packages
  {
    Listing(users, packages, q, faults, order, IsUserNotFound)
  }

  /** Corrected, a request naming a user who does not exist returns the
      empty listing. */
  lemma GetPackagesIntendedUnknownUserEmpty(users: UserStore.UserTable, packages: PackageStore.PackageTable,
                                            q: PackagesQuery, order: seq<int>)
    requires q.username != ""
    requires forall row :: row in users.rows ==> row.username != q.username
    ensures GetPackagesIntended(users, packages, q, PackagesFaults(None, None, None), order) == Ok(EmptyPage)
  {
  }

  /** CreatePackage: the buyer is looked up by name and any lookup error
      returned before the package store is touched; the request is given the
      buyer's id and its traffic, given in gigabytes, is turned into bytes. */
  function CreatePackage(users: UserStore.UserTable, packages: PackageStore.PackageTable, req: CreatePackageRequest,
                         now: Time, lookupFault: Option<Error>, activeFault: Option<Error>)
    : (r: Result<PackageStore.PackageTable>)
    ensures lookupFault.Some? ==> r == Err(lookupFault.value)
    ensures lookupFault.None? && (forall row :: row in users.rows ==> row.username != req.username) ==>
      r == Err(UserStore.Missing)
    ensures r.Ok? ==> |r.value.rows| == |packages.rows| + 1 && r.value.rows[..|packages.rows|] == packages.rows
    ensures r.Ok? ==> var p := r.value.rows[|packages.rows|];
      && p.trafficLimit == req.traffic * Bytes.GB
      && exists row :: row in users.rows && row.username == req.username && p.userId == row.id
  {
    var lookup := if lookupFault.Some? then Err(lookupFault.value) else UserStore.GetUserByUsername(users, req.username);
    match lookup
    case Err(e) => Err(e)
    case Ok(u) =>
      UserStore.GetUserByUsernameStored(users, req.username);
      PackageStore.CreatePackage(packages, req.(userId := u.id, traffic := req.traffic * Bytes.GB), now, activeFault)
  }

  /** On a valid package table and without failures, buying succeeds
      exactly for a user who exists. */
  lemma CreatePackageForKnownUser(users: UserStore.UserTable, packages: PackageStore.PackageTable,
                                  req: CreatePackageRequest, now: Time)
    requires PackageStore.Valid(packages)
    ensures CreatePackage(users, packages, req, now, None, None).Ok? <==>
      exists row :: row in users.rows && row.username == req.username
  {
    var lookup := UserStore.GetUserByUsername(users, req.username);
    if lookup.Ok? {
      PackageStore.CreatePackageActivation(packages, req.(userId := lookup.value.id, traffic := req.traffic * Bytes.GB), now);
    }
  }
}
