/** The records the services exchange (internal/model). Times are whole
    seconds; 0 stands for Go's zero time. */
module Model {
  import opened Wrappers

  type Time = int

  /** One day, in the seconds `Time` counts. */
  const Day: int := 24 * 60 * 60

  const StatusConnected: string := "connected"
  const StatusDisconnected: string := "disconnected"

  /** A VPN session as the services see it. */
  datatype Connection = Connection(
    id: int,
    externalId: string,
    username: string,
    status: string,
    remoteIp: string,
    location: string,
    userAgent: string,
    hostname: string,
    download: int,
    upload: int,
    connectedAt: Time,
    updatedAt: Time)

  /** A traffic quota bucket. A package with a deadline (`expireAt`) is the
      active one; a package without one is held in reserve. */
  datatype Package = Package(
    id: int,
    userId: int,
    username: string,
    trafficLimit: int,
    download: int,
    upload: int,
    maxConnections: int,
    isTrial: bool,
    expirationInDays: int,
    expireAt: Option<Time>,
    createdAt: Time)

  /** The Go zero value of a package; its id 0 matches no stored row. */
  const ZeroPackage: Package := Package(0, 0, "", 0, 0, 0, 0, false, 0, None, 0)

  /** A user's active package and reserved packages. */
  datatype UserPackages = UserPackages(userId: int, active: Package, reserved: seq<Package>)

  const NoPackages: UserPackages := UserPackages(0, ZeroPackage, [])

  datatype User = User(
    id: int,
    username: string,
    externalId: string,
    userType: string,
    referralCode: string,
    referral: Option<string>,
    bannedAt: Option<Time>,
    createdAt: Time)

  /** Page request and, once a query has run, the totals it found. */
  datatype Pagination = Pagination(currentPage: int, pageSize: int, total: int, totalPages: int)

  /** What a caller asks CreatePackage for. `traffic` is in bytes once it
      reaches the store. */
  datatype CreatePackageRequest = CreatePackageRequest(
    username: string,
    userId: int,
    traffic: int,
    maxConnections: int,
    isTrial: bool,
    expirationInDays: int)

  datatype SystemStatus = SystemStatus(
    totalActiveConnections: int,
    onlineUsers: int,
    totalUsers: int,
    totalDownload: int,
    totalUpload: int)

  datatype UsersStat = UsersStat(totalUsers: int, totalActiveUsers: int, totalBannedUsers: int)

  function UsernameOf(c: Connection): string { c.username }
  function PackageOwner(p: Package): int { p.userId }
  function UserName(u: User): string { u.username }
  function UserId(u: User): int { u.id }
  function GroupOwner(g: UserPackages): int { g.userId }
}
