/** The stored form of a connection and the two conversions between it and
    the service record (internal/repository/connection_model.go). */
module ConnectionModel {
  import opened Model

  /** A row of the `connection` table. */
  datatype ConnectionRow = ConnectionRow(
    id: int,
    status: string,
    username: string,
    externalId: string,
    remoteIp: string,
    location: string,
    userAgent: string,
    hostname: string,
    download: int,
    upload: int,
    connectedAt: Time,
    createdAt: Time,
    updatedAt: Time)

  /** toConnectionEntity: the row an upsert writes. Only what the VPN server
      reports is carried; the store assigns id, status and stamps. */
  function ToRow(c: Connection): (r: ConnectionRow)
    ensures r.id == 0 && r.status == "" && r.createdAt == 0 && r.updatedAt == 0
  {
    ConnectionRow(0, "", c.username, c.externalId, c.remoteIp, c.location, c.userAgent,
                  c.hostname, c.download, c.upload, c.connectedAt, 0, 0)
  }

  /** toModelConnectionEntity: the service record of a row; the creation
      stamp is not part of it. */
  function ToConnection(r: ConnectionRow): (c: Connection)
    ensures c.id == r.id && c.status == r.status && c.updatedAt == r.updatedAt
  {
    Connection(r.id, r.externalId, r.username, r.status, r.remoteIp, r.location,
               r.userAgent, r.hostname, r.download, r.upload, r.connectedAt, r.updatedAt)
  }

  /** Writing a record and reading it back loses exactly the fields the store
      owns: the id, the status and the update stamp come back empty. */
  lemma RoundTrip(c: Connection)
    ensures ToConnection(ToRow(c)) == c.(id := 0, status := "", updatedAt := 0)
  {
  }

  /** Reading a row and writing it back keeps everything the VPN server
      reports. */
  lemma ReportedFieldsSurvive(r: ConnectionRow)
    ensures ToRow(ToConnection(r)) == r.(id := 0, status := "", createdAt := 0, updatedAt := 0)
  {
  }

  /** toConnectionEntities. */
  function ToRows(cs: seq<Connection>): (rs: seq<ConnectionRow>)
    ensures |rs| == |cs|
    ensures forall i :: 0 <= i < |cs| ==> rs[i] == ToRow(cs[i])
  {
    seq(|cs|, i requires 0 <= i < |cs| => ToRow(cs[i]))
  }

  /** toModelConnectionEntities. */
  function ToConnections(rs: seq<ConnectionRow>): (cs: seq<Connection>)
    ensures |cs| == |rs|
    ensures forall i :: 0 <= i < |rs| ==> cs[i] == ToConnection(rs[i])
    ensures forall row :: row in rs ==> ToConnection(row) in cs
    ensures forall c :: c in cs ==> exists row :: row in rs && ToConnection(row) == c
  {
    var cs := seq(|rs|, i requires 0 <= i < |rs| => ToConnection(rs[i]));
    assert forall i :: 0 <= i < |rs| ==> cs[i] in cs;
    cs
  }
}
