/** The stored form of a package and its conversion to the service record
    (internal/repository/package_model.go). */
module PackageModel {
  import opened Wrappers
  import opened Model

  /** A row of the `package` table. */
  datatype PackageRow = PackageRow(
    id: int,
    userId: int,
    trafficLimit: int,
    download: int,
    upload: int,
    maxConnections: int,
    isTrial: bool,
    expirationInDays: int,
    expireAt: Option<Time>,
    createdAt: Time)

  /** toModelPackageEntity. The trial flag is not copied, so every package
      read from the store reports `isTrial == false`, and the owner's name is
      left for the caller to fill in. */
  function ToPackage(r: PackageRow): (p: Package)
    ensures !p.isTrial && p.username == ""
    ensures p.id == r.id && p.userId == r.userId && p.expireAt == r.expireAt
  {
    Package(r.id, r.userId, "", r.trafficLimit, r.download, r.upload, r.maxConnections,
            false, r.expirationInDays, r.expireAt, r.createdAt)
  }

  /** The row a package record describes; an independent inverse used to
      state what the conversion keeps. */
  function RowOf(p: Package): PackageRow {
    PackageRow(p.id, p.userId, p.trafficLimit, p.download, p.upload, p.maxConnections,
               p.isTrial, p.expirationInDays, p.expireAt, p.createdAt)
  }

  /** The conversion keeps every column except the trial flag. */
  lemma OnlyTrialFlagLost(r: PackageRow)
    ensures RowOf(ToPackage(r)) == r.(isTrial := false)
  {
  }

  /** toModelPackageEntities. */
  function ToPackages(rs: seq<PackageRow>): (ps: seq<Package>)
    ensures |ps| == |rs|
    ensures forall i :: 0 <= i < |rs| ==> ps[i] == ToPackage(rs[i])
  {
    seq(|rs|, i requires 0 <= i < |rs| => ToPackage(rs[i]))
  }
}
