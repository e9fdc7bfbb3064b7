/** The `connection` table and the queries and updates the services run on it
    (internal/repository/connection.go). */
module ConnectionStore {
  import opened Wrappers
  import opened Model
  import opened ConnectionModel
  import Util
  import Sorting
  import Scopes

  /** The rows in id order and the id the next insert receives. */
  datatype ConnectionTable = ConnectionTable(rows: seq<ConnectionRow>, nextId: int)

  /** What the database guarantees: positive ids, increasing along the table
      and below the next one, and external ids unique (the upsert's conflict
      target). */
  ghost predicate Valid(t: ConnectionTable) {
    && t.nextId >= 1
    && (forall i :: 0 <= i < |t.rows| ==> 0 < t.rows[i].id < t.nextId)
    && (forall i, j :: 0 <= i < j < |t.rows| ==> t.rows[i].id < t.rows[j].id)
    && (forall i, j :: 0 <= i < j < |t.rows| ==> t.rows[i].externalId != t.rows[j].externalId)
  }

  predicate HasExternalId(rows: seq<ConnectionRow>, ext: string) {
    exists i :: 0 <= i < |rows| && rows[i].externalId == ext
  }

  predicate DistinctExternalIds(batch: seq<Connection>) {
    forall i, j :: 0 <= i < j < |batch| ==> batch[i].externalId != batch[j].externalId
  }

  /** The first batch entry with external id `ext`. */
  function Find(batch: seq<Connection>, ext: string): (r: Option<Connection>)
    ensures r.Some? ==> r.value in batch && r.value.externalId == ext
    ensures r.None? <==> forall j :: 0 <= j < |batch| ==> batch[j].externalId != ext
  {
    if |batch| == 0 then None
    else if batch[0].externalId == ext then Some(batch[0])
    else Find(batch[1..], ext)
  }

  /** The conflict update: the counters and the update stamp come from the
      incoming entry; nothing else changes. */
  function Refresh(row: ConnectionRow, c: Connection, now: Time): ConnectionRow {
    row.(download := c.download, upload := c.upload, updatedAt := now)
  }

  /** A row inserted for an entry with an unknown external id. The converted
      entry leaves its status at Go's zero value and the insert writes that
      value, `InsertedStatus`, explicitly, so no column default applies. The
      parameter `status` is what the row ends up holding: `InsertedStatus` as
      the code stands, or anything outside this code (a trigger, say) that
      rewrites it. */
  function Inserted(c: Connection, id: int, status: string, now: Time): ConnectionRow {
    ToRow(c).(id := id, status := status, createdAt := now, updatedAt := now)
  }

  /** One entry of the batch merged into the table. */
  function MergeOne(t: ConnectionTable, c: Connection, now: Time, status: string): ConnectionTable {
    if HasExternalId(t.rows, c.externalId) then
      t.(rows := seq(|t.rows|, i requires 0 <= i < |t.rows| =>
        if t.rows[i].externalId == c.externalId then Refresh(t.rows[i], c, now) else t.rows[i]))
    else
      ConnectionTable(t.rows + [Inserted(c, t.nextId, status, now)], t.nextId + 1)
  }

  /** The batch merged entry by entry, as the single INSERT ... ON CONFLICT
      statement processes it. */
  function MergeAll(t: ConnectionTable, batch: seq<Connection>, now: Time, status: string): ConnectionTable
    decreases |batch|
  {
    if |batch| == 0 then t else MergeAll(MergeOne(t, batch[0], now, status), batch[1..], now, status)
  }

  /** Reference for the merge, part 1: every existing row refreshed from the
      batch entry with its external id, if there is one. */
  function RefreshAll(rows: seq<ConnectionRow>, batch: seq<Connection>, now: Time): (r: seq<ConnectionRow>)
    ensures |r| == |rows|
  {
    seq(|rows|, i requires 0 <= i < |rows| =>
      match Find(batch, rows[i].externalId)
      case None => rows[i]
      case Some(c) => Refresh(rows[i], c, now))
  }

  /** Reference for the merge, part 2: one new row, with consecutive ids from
      `id`, for each batch entry whose external id the table lacks. */
  function NewRows(rows: seq<ConnectionRow>, batch: seq<Connection>, id: int, status: string, now: Time): seq<ConnectionRow>
    decreases |batch|
  {
    if |batch| == 0 then []
    else if HasExternalId(rows, batch[0].externalId) then NewRows(rows, batch[1..], id, status, now)
    else [Inserted(batch[0], id, status, now)] + NewRows(rows, batch[1..], id + 1, status, now)
  }

  /** The table the upsert should produce, stated without the fold. */
  function Merged(t: ConnectionTable, batch: seq<Connection>, now: Time, status: string): ConnectionTable {
    var added := NewRows(t.rows, batch, t.nextId, status, now);
    ConnectionTable(RefreshAll(t.rows, batch, now) + added, t.nextId + |added|)
  }

  /** The status the insert writes: the converted entry's zero value. */
  const InsertedStatus: string := ""

  /** Errors the database reports for a batch it cannot upsert. */
  const EmptyBatch: Error := Internal("empty slice found")
  const RepeatedConflictTarget: Error :=
    Internal("ON CONFLICT DO UPDATE command cannot affect row a second time")

  /** UpsertConnections: one INSERT ... ON CONFLICT (external_id) DO UPDATE of
      the converted batch. An empty batch is refused before reaching the
      database, and a batch naming one external id twice is refused by it;
      either way nothing is written. */
  function UpsertConnections(t: ConnectionTable, batch: seq<Connection>, now: Time, status: string): (r: Result<ConnectionTable>)
    ensures |batch| == 0 ==> r == Err(EmptyBatch)
    ensures r.Ok? <==> |batch| > 0 && DistinctExternalIds(batch)
    ensures r.Ok? ==> r.value == Merged(t, batch, now, status)
  {
    if |batch| == 0 then Err(EmptyBatch)
    else if !DistinctExternalIds(batch) then Err(RepeatedConflictTarget)
    else
      MergeAllIsMerged(t, batch, now, status);
      Ok(MergeAll(t, batch, now, status))
  }

  /** NewRows only looks at which external ids the table holds. */
  lemma {:induction false} NewRowsSamePresence(a: seq<ConnectionRow>, b: seq<ConnectionRow>, batch: seq<Connection>,
                                              id: int, status: string, now: Time)
    requires forall j :: 0 <= j < |batch| ==> (HasExternalId(a, batch[j].externalId) <==> HasExternalId(b, batch[j].externalId))
    ensures NewRows(a, batch, id, status, now) == NewRows(b, batch, id, status, now)
    decreases |batch|
  {
    if |batch| > 0 {
      NewRowsSamePresence(a, b, batch[1..], id, status, now);
      NewRowsSamePresence(a, b, batch[1..], id + 1, status, now);
    }
  }

  /** The fold computes the closed form: existing rows refreshed in place,
      new rows appended in batch order. */
  lemma {:induction false} MergeAllIsMerged(t: ConnectionTable, batch: seq<Connection>, now: Time, status: string)
    requires DistinctExternalIds(batch)
    ensures MergeAll(t, batch, now, status) == Merged(t, batch, now, status)
    decreases |batch|
  {
    if |batch| > 0 {
      var c := batch[0];
      var rest := batch[1..];
      assert DistinctExternalIds(rest) by {
        forall i, j | 0 <= i < j < |rest| ensures rest[i].externalId != rest[j].externalId {
          assert rest[i] == batch[i + 1] && rest[j] == batch[j + 1];
        }
      }
      forall j | 0 <= j < |rest| ensures rest[j].externalId != c.externalId {
        assert rest[j] == batch[j + 1];
      }
      MergeAllIsMerged(MergeOne(t, c, now, status), rest, now, status);
      if HasExternalId(t.rows, c.externalId) {
        MergeStepPresent(t, c, rest, now, status);
      } else {
        MergeStepAbsent(t, c, rest, now, status);
      }
      assert batch == [c] + rest;
    }
  }

  /** One induction step of MergeAllIsMerged, for an entry the table holds. */
  lemma MergeStepPresent(t: ConnectionTable, c: Connection, rest: seq<Connection>, now: Time, status: string)
    requires HasExternalId(t.rows, c.externalId)
    requires forall j :: 0 <= j < |rest| ==> rest[j].externalId != c.externalId
    ensures Merged(MergeOne(t, c, now, status), rest, now, status) == Merged(t, [c] + rest, now, status)
  {
    var batch := [c] + rest;
    assert batch[1..] == rest;
    var t1 := MergeOne(t, c, now, status);
    assert RefreshAll(t1.rows, rest, now) == RefreshAll(t.rows, batch, now) by {
      forall i | 0 <= i < |t.rows|
        ensures RefreshAll(t1.rows, rest, now)[i] == RefreshAll(t.rows, batch, now)[i]
      {
        var ext := t.rows[i].externalId;
        assert t1.rows[i].externalId == ext;
        if ext == c.externalId {
          assert Find(rest, ext).None?;
          assert Find(batch, ext) == Some(c);
        } else {
          assert Find(batch, ext) == Find(rest, ext);
        }
      }
    }
    forall j | 0 <= j < |rest|
      ensures HasExternalId(t1.rows, rest[j].externalId) <==> HasExternalId(t.rows, rest[j].externalId)
    {
      var ext := rest[j].externalId;
      if HasExternalId(t.rows, ext) {
        var i :| 0 <= i < |t.rows| && t.rows[i].externalId == ext;
        assert t1.rows[i].externalId == ext;
      }
      if HasExternalId(t1.rows, ext) {
        var i :| 0 <= i < |t1.rows| && t1.rows[i].externalId == ext;
        assert t.rows[i].externalId == ext;
      }
    }
    NewRowsSamePresence(t1.rows, t.rows, rest, t.nextId, status, now);
  }

  /** One induction step of MergeAllIsMerged, for an entry the table lacks. */
  lemma MergeStepAbsent(t: ConnectionTable, c: Connection, rest: seq<Connection>, now: Time, status: string)
    requires !HasExternalId(t.rows, c.externalId)
    requires forall j :: 0 <= j < |rest| ==> rest[j].externalId != c.externalId
    ensures Merged(MergeOne(t, c, now, status), rest, now, status) == Merged(t, [c] + rest, now, status)
  {
    var batch := [c] + rest;
    assert batch[1..] == rest;
    var t1 := MergeOne(t, c, now, status);
    var ins := Inserted(c, t.nextId, status, now);
    assert t1.rows == t.rows + [ins];
    assert Find(rest, c.externalId).None?;
    assert RefreshAll(t1.rows, rest, now) == RefreshAll(t.rows, batch, now) + [ins] by {
      forall i | 0 <= i < |t.rows|
        ensures RefreshAll(t1.rows, rest, now)[i] == RefreshAll(t.rows, batch, now)[i]
      {
        assert t.rows[i].externalId != c.externalId;
        assert t1.rows[i] == t.rows[i];
        assert Find(batch, t.rows[i].externalId) == Find(rest, t.rows[i].externalId);
      }
    }
    forall j | 0 <= j < |rest|
      ensures HasExternalId(t1.rows, rest[j].externalId) <==> HasExternalId(t.rows, rest[j].externalId)
    {
      var ext := rest[j].externalId;
      if HasExternalId(t1.rows, ext) {
        var i :| 0 <= i < |t1.rows| && t1.rows[i].externalId == ext;
        assert i < |t.rows| && t.rows[i].externalId == ext;
      }
      if HasExternalId(t.rows, ext) {
        var i :| 0 <= i < |t.rows| && t.rows[i].externalId == ext;
        assert t1.rows[i].externalId == ext;
      }
    }
    NewRowsSamePresence(t1.rows, t.rows, rest, t.nextId + 1, status, now);
    assert NewRows(t.rows, batch, t.nextId, status, now)
        == [ins] + NewRows(t.rows, rest, t.nextId + 1, status, now);
  }

  /** An existing row keeps its id, status, username, address, agent, host
      and connection time through an upsert; only the counters and the update
      stamp can change, and a row the batch does not mention is untouched. */
  lemma UpsertKeepsIdentity(t: ConnectionTable, batch: seq<Connection>, now: Time, status: string, i: int)
    requires UpsertConnections(t, batch, now, status).Ok?
    requires 0 <= i < |t.rows|
    ensures var r := UpsertConnections(t, batch, now, status).value.rows[i];
      && r.(download := t.rows[i].download, upload := t.rows[i].upload, updatedAt := t.rows[i].updatedAt) == t.rows[i]
      && ((forall j :: 0 <= j < |batch| ==> batch[j].externalId != t.rows[i].externalId) ==> r == t.rows[i])
  {
    var ext := t.rows[i].externalId;
    if Find(batch, ext).Some? {
      assert UpsertConnections(t, batch, now, status).value.rows[i] == Refresh(t.rows[i], Find(batch, ext).value, now);
    }
  }

  /** Upserting the same batch twice leaves the table as the first upsert
      left it: counters are overwritten, never accumulated, and no row is
      inserted twice. */
  lemma UpsertIdempotent(t: ConnectionTable, batch: seq<Connection>, now: Time, status: string)
    requires UpsertConnections(t, batch, now, status).Ok?
    ensures var t1 := UpsertConnections(t, batch, now, status).value;
      UpsertConnections(t1, batch, now, status) == Ok(t1)
  {
    var t1 := Merged(t, batch, now, status);
    var added := NewRows(t.rows, batch, t.nextId, status, now);
    NewRowsFound(t.rows, batch, t.nextId, status, now);
    forall j | 0 <= j < |batch| ensures HasExternalId(t1.rows, batch[j].externalId) {
      var ext := batch[j].externalId;
      if HasExternalId(t.rows, ext) {
        var i :| 0 <= i < |t.rows| && t.rows[i].externalId == ext;
        assert t1.rows[i].externalId == ext;
      } else {
        var k :| 0 <= k < |added| && added[k].externalId == ext;
        assert t1.rows[|t.rows| + k] == added[k];
      }
    }
    NewRowsAllPresent(t1.rows, batch, t1.nextId, status, now);
    assert RefreshAll(t1.rows, batch, now) == t1.rows by {
      forall i | 0 <= i < |t1.rows| ensures RefreshAll(t1.rows, batch, now)[i] == t1.rows[i] {
        var ext := t1.rows[i].externalId;
        match Find(batch, ext)
        case None =>
        case Some(c) =>
          if i < |t.rows| {
            assert Find(batch, t.rows[i].externalId) == Some(c);
          } else {
            NewRowsCarry(t.rows, batch, t.nextId, status, now, i - |t.rows|, c);
          }
      }
    }
    assert Merged(t1, batch, now, status) == t1;
  }

  /** A batch whose external ids the table already holds inserts nothing. */
  lemma {:induction false} NewRowsAllPresent(rows: seq<ConnectionRow>, batch: seq<Connection>, id: int, status: string, now: Time)
    requires forall j :: 0 <= j < |batch| ==> HasExternalId(rows, batch[j].externalId)
    ensures NewRows(rows, batch, id, status, now) == []
    decreases |batch|
  {
    if |batch| > 0 {
      NewRowsAllPresent(rows, batch[1..], id, status, now);
    }
  }

  /** Every batch entry the table lacks gets a new row. */
  lemma {:induction false} NewRowsFound(rows: seq<ConnectionRow>, batch: seq<Connection>, id: int, status: string, now: Time)
    ensures forall j :: 0 <= j < |batch| && !HasExternalId(rows, batch[j].externalId) ==>
      HasExternalId(NewRows(rows, batch, id, status, now), batch[j].externalId)
    decreases |batch|
  {
    if |batch| > 0 {
      var added := NewRows(rows, batch, id, status, now);
      if HasExternalId(rows, batch[0].externalId) {
        NewRowsFound(rows, batch[1..], id, status, now);
        forall j | 0 < j < |batch| && !HasExternalId(rows, batch[j].externalId)
          ensures HasExternalId(added, batch[j].externalId)
        {
          assert batch[j] == batch[1..][j - 1];
        }
      } else {
        var tail := NewRows(rows, batch[1..], id + 1, status, now);
        NewRowsFound(rows, batch[1..], id + 1, status, now);
        assert added == [Inserted(batch[0], id, status, now)] + tail;
        assert added[0].externalId == batch[0].externalId;
        forall j | 0 < j < |batch| && !HasExternalId(rows, batch[j].externalId)
          ensures HasExternalId(added, batch[j].externalId)
        {
          assert batch[j] == batch[1..][j - 1];
          var k :| 0 <= k < |tail| && tail[k].externalId == batch[j].externalId;
          assert added[k + 1] == tail[k];
        }
      }
    }
  }

  /** A new row holds what its batch entry reported, stamped `now`. */
  lemma {:induction false} NewRowsCarry(rows: seq<ConnectionRow>, batch: seq<Connection>, id: int, status: string, now: Time,
                                        k: int, c: Connection)
    requires DistinctExternalIds(batch)
    requires 0 <= k < |NewRows(rows, batch, id, status, now)|
    requires Find(batch, NewRows(rows, batch, id, status, now)[k].externalId) == Some(c)
    ensures Refresh(NewRows(rows, batch, id, status, now)[k], c, now) == NewRows(rows, batch, id, status, now)[k]
    decreases |batch|
  {
    var added := NewRows(rows, batch, id, status, now);
    var rest := batch[1..];
    assert DistinctExternalIds(rest) by {
      forall i, j | 0 <= i < j < |rest| ensures rest[i].externalId != rest[j].externalId {
        assert rest[i] == batch[i + 1] && rest[j] == batch[j + 1];
      }
    }
    if HasExternalId(rows, batch[0].externalId) {
      NewRowsExternalIds(rows, rest, id, status, now, k);
      var j :| 0 <= j < |rest| && rest[j].externalId == added[k].externalId;
      assert batch[j + 1] == rest[j];
      assert Find(rest, added[k].externalId) == Some(c);
      NewRowsCarry(rows, rest, id, status, now, k, c);
    } else if k == 0 {
      assert Find(batch, batch[0].externalId) == Some(batch[0]);
    } else {
      var tail := NewRows(rows, rest, id + 1, status, now);
      assert added[k] == tail[k - 1];
      NewRowsExternalIds(rows, rest, id + 1, status, now, k - 1);
      var j :| 0 <= j < |rest| && rest[j].externalId == tail[k - 1].externalId;
      assert batch[j + 1] == rest[j];
      assert Find(rest, added[k].externalId) == Some(c);
      NewRowsCarry(rows, rest, id + 1, status, now, k - 1, c);
    }
  }

  /** Every new row's external id comes from the batch. */
  lemma {:induction false} NewRowsExternalIds(rows: seq<ConnectionRow>, batch: seq<Connection>, id: int, status: string, now: Time, k: int)
    requires 0 <= k < |NewRows(rows, batch, id, status, now)|
    ensures exists j :: 0 <= j < |batch| && batch[j].externalId == NewRows(rows, batch, id, status, now)[k].externalId
    decreases |batch|
  {
    var added := NewRows(rows, batch, id, status, now);
    if HasExternalId(rows, batch[0].externalId) {
      NewRowsExternalIds(rows, batch[1..], id, status, now, k);
      var j :| 0 <= j < |batch[1..]| && batch[1..][j].externalId == added[k].externalId;
      assert batch[j + 1] == batch[1..][j];
    } else if k == 0 {
      assert batch[0].externalId == added[0].externalId;
    } else {
      NewRowsExternalIds(rows, batch[1..], id + 1, status, now, k - 1);
      var j :| 0 <= j < |batch[1..]| && batch[1..][j].externalId == added[k].externalId;
      assert batch[j + 1] == batch[1..][j];
    }
  }

  /** Rows appended to `rows`: consecutive ids from `id`, external ids
      that `rows` lacks, and no external id twice. */
  ghost predicate Appendable(rows: seq<ConnectionRow>, added: seq<ConnectionRow>, id: int) {
    && (forall k :: 0 <= k < |added| ==> added[k].id == id + k)
    && (forall k :: 0 <= k < |added| ==> !HasExternalId(rows, added[k].externalId))
    && (forall k, l :: 0 <= k < l < |added| ==> added[k].externalId != added[l].externalId)
  }

  /** The new rows of a batch with distinct external ids can be appended. */
  lemma {:induction false} NewRowsShape(rows: seq<ConnectionRow>, batch: seq<Connection>, id: int, status: string, now: Time)
    requires DistinctExternalIds(batch)
    ensures Appendable(rows, NewRows(rows, batch, id, status, now), id)
    decreases |batch|
  {
    if |batch| > 0 {
      var rest := batch[1..];
      assert DistinctExternalIds(rest) by {
        forall i, j | 0 <= i < j < |rest| ensures rest[i].externalId != rest[j].externalId {
          assert rest[i] == batch[i + 1] && rest[j] == batch[j + 1];
        }
      }
      if !HasExternalId(rows, batch[0].externalId) {
        var tail := NewRows(rows, rest, id + 1, status, now);
        var added := NewRows(rows, batch, id, status, now);
        NewRowsShape(rows, rest, id + 1, status, now);
        assert added == [Inserted(batch[0], id, status, now)] + tail;
        forall l | 0 <= l < |tail| ensures tail[l].externalId != batch[0].externalId {
          NewRowsExternalIds(rows, rest, id + 1, status, now, l);
          var j :| 0 <= j < |rest| && rest[j].externalId == tail[l].externalId;
          assert rest[j] == batch[j + 1];
        }
        forall k | 0 <= k < |added| ensures added[k].id == id + k && !HasExternalId(rows, added[k].externalId) {
          if k > 0 { assert added[k] == tail[k - 1]; }
        }
        forall k, l | 0 <= k < l < |added| ensures added[k].externalId != added[l].externalId {
          assert added[l] == tail[l - 1];
          if k > 0 { assert added[k] == tail[k - 1]; }
        }
      } else {
        NewRowsShape(rows, rest, id, status, now);
        assert NewRows(rows, batch, id, status, now) == NewRows(rows, rest, id, status, now);
      }
    }
  }

  /** Appending appendable rows keeps a table valid. */
  lemma AppendKeepsValid(t: ConnectionTable, refreshed: seq<ConnectionRow>, added: seq<ConnectionRow>)
    requires Valid(t)
    requires |refreshed| == |t.rows|
    requires forall i :: 0 <= i < |t.rows| ==> refreshed[i].id == t.rows[i].id && refreshed[i].externalId == t.rows[i].externalId
    requires Appendable(t.rows, added, t.nextId)
    ensures Valid(ConnectionTable(refreshed + added, t.nextId + |added|))
  {
    var r := refreshed + added;
    var n := |t.rows|;
    forall i, j | 0 <= i < j < |r| ensures r[i].externalId != r[j].externalId {
      if j < n {
        assert t.rows[i].externalId != t.rows[j].externalId;
      } else if i < n {
        assert r[j] == added[j - n];
        assert !HasExternalId(t.rows, added[j - n].externalId);
        assert t.rows[i].externalId == r[i].externalId;
      } else {
        assert r[i] == added[i - n] && r[j] == added[j - n];
      }
    }
    forall i, j | 0 <= i < j < |r| ensures r[i].id < r[j].id {
      if j < n {
        assert t.rows[i].id < t.rows[j].id;
      } else if i < n {
        assert r[j] == added[j - n];
      } else {
        assert r[i] == added[i - n] && r[j] == added[j - n];
      }
    }
    forall i | 0 <= i < |r| ensures 0 < r[i].id < t.nextId + |added| {
      if i >= n { assert r[i] == added[i - n]; }
    }
  }

  /** The upsert keeps the table valid: new rows get fresh ids above all
      existing ones and external ids no other row has. */
  lemma UpsertKeepsValid(t: ConnectionTable, batch: seq<Connection>, now: Time, status: string)
    requires Valid(t)
    requires UpsertConnections(t, batch, now, status).Ok?
    ensures Valid(UpsertConnections(t, batch, now, status).value)
  {
    NewRowsShape(t.rows, batch, t.nextId, status, now);
    AppendKeepsValid(t, RefreshAll(t.rows, batch, now), NewRows(t.rows, batch, t.nextId, status, now));
  }

  /** Every inserted row carries the upsert's stamp. */
  lemma {:induction false} NewRowsStamped(rows: seq<ConnectionRow>, batch: seq<Connection>, id: int, status: string, now: Time)
    ensures forall k :: 0 <= k < |NewRows(rows, batch, id, status, now)| ==> NewRows(rows, batch, id, status, now)[k].updatedAt == now
    decreases |batch|
  {
    if |batch| > 0 {
      NewRowsStamped(rows, batch[1..], id, status, now);
      NewRowsStamped(rows, batch[1..], id + 1, status, now);
    }
  }

  /** Every row the batch names, refreshed or inserted, carries the upsert's
      update stamp afterwards. */
  lemma UpsertStampsBatch(t: ConnectionTable, batch: seq<Connection>, now: Time, status: string)
    requires UpsertConnections(t, batch, now, status).Ok?
    ensures var rows := UpsertConnections(t, batch, now, status).value.rows;
      forall i :: 0 <= i < |rows| && Find(batch, rows[i].externalId).Some? ==> rows[i].updatedAt == now
  {
    var refreshed := RefreshAll(t.rows, batch, now);
    var added := NewRows(t.rows, batch, t.nextId, status, now);
    var rows := refreshed + added;
    NewRowsStamped(t.rows, batch, t.nextId, status, now);
    forall i | 0 <= i < |rows| && Find(batch, rows[i].externalId).Some? ensures rows[i].updatedAt == now {
      if i < |refreshed| {
        assert rows[i] == refreshed[i];
        assert refreshed[i].externalId == t.rows[i].externalId;
      } else {
        assert rows[i] == added[i - |refreshed|];
      }
    }
  }

  /** Every new row comes from a batch entry: it has that entry's external
      id and username, and the status the insert is given. */
  lemma {:induction false} NewRowsEntry(rows: seq<ConnectionRow>, batch: seq<Connection>, id: int, status: string, now: Time, k: int)
    requires 0 <= k < |NewRows(rows, batch, id, status, now)|
    ensures var row := NewRows(rows, batch, id, status, now)[k];
      row.status == status &&
      exists j :: 0 <= j < |batch| && batch[j].externalId == row.externalId && batch[j].username == row.username
    decreases |batch|
  {
    var added := NewRows(rows, batch, id, status, now);
    if HasExternalId(rows, batch[0].externalId) {
      NewRowsEntry(rows, batch[1..], id, status, now, k);
      var j :| 0 <= j < |batch[1..]| && batch[1..][j].externalId == added[k].externalId && batch[1..][j].username == added[k].username;
      assert batch[j + 1] == batch[1..][j];
    } else if k == 0 {
      assert added[0] == Inserted(batch[0], id, status, now);
    } else {
      var tail := NewRows(rows, batch[1..], id + 1, status, now);
      assert added[k] == tail[k - 1];
      NewRowsEntry(rows, batch[1..], id + 1, status, now, k - 1);
      var j :| 0 <= j < |batch[1..]| && batch[1..][j].externalId == added[k].externalId && batch[1..][j].username == added[k].username;
      assert batch[j + 1] == batch[1..][j];
    }
  }

  /** As written, the upsert never makes a row connected: it stores the empty
      status on insert and leaves the status of an existing row alone. So a
      table without connected rows, a new one among them, still lists no
      active connection after any upsert, and its active count stays 0. */
  lemma UpsertedNeverActive(t: ConnectionTable, batch: seq<Connection>, now: Time, username: string)
    requires forall row :: row in t.rows ==> row.status != StatusConnected
    requires UpsertConnections(t, batch, now, InsertedStatus).Ok?
    ensures var u := UpsertConnections(t, batch, now, InsertedStatus).value;
      && (forall row :: row in u.rows ==> row.status != StatusConnected)
      && GetActiveConnections(u, username, None).0 == []
      && GetSystemStatus(u).totalActiveConnections == 0
  {
    var u := UpsertConnections(t, batch, now, InsertedStatus).value;
    var refreshed := RefreshAll(t.rows, batch, now);
    var added := NewRows(t.rows, batch, t.nextId, InsertedStatus, now);
    assert u.rows == refreshed + added;
    forall row | row in u.rows ensures row.status != StatusConnected {
      var i :| 0 <= i < |u.rows| && u.rows[i] == row;
      if i < |refreshed| {
        assert t.rows[i] in t.rows;
      } else {
        NewRowsEntry(t.rows, batch, t.nextId, InsertedStatus, now, i - |refreshed|);
      }
    }
    NoneSelected(u.rows, ActiveOf(username));
    NoneSelected(u.rows, IsConnectedRow);
  }

  /** Nothing is selected when no element qualifies. */
  lemma {:induction false} NoneSelected(s: seq<ConnectionRow>, keep: ConnectionRow -> bool)
    requires forall row :: row in s ==> !keep(row)
    ensures Util.Select(s, keep) == []
    decreases |s|
  {
    if |s| > 0 {
      assert s[0] in s;
      assert forall row :: row in s[1..] ==> row in s;
      NoneSelected(s[1..], keep);
    }
  }

  /** Corrected, the insert stores `connected`: every session the table did
      not hold is listed among its user's active connections right after the
      upsert. */
  lemma UpsertedSessionsActive(t: ConnectionTable, batch: seq<Connection>, now: Time, j: int)
    requires UpsertConnections(t, batch, now, StatusConnected).Ok?
    requires 0 <= j < |batch| && !HasExternalId(t.rows, batch[j].externalId)
    ensures var u := UpsertConnections(t, batch, now, StatusConnected).value;
      exists row :: row in u.rows && row.externalId == batch[j].externalId &&
        ToConnection(row) in GetActiveConnections(u, batch[j].username, None).0
  {
    var u := UpsertConnections(t, batch, now, StatusConnected).value;
    var added := NewRows(t.rows, batch, t.nextId, StatusConnected, now);
    assert u.rows == RefreshAll(t.rows, batch, now) + added;
    NewRowsFound(t.rows, batch, t.nextId, StatusConnected, now);
    var k :| 0 <= k < |added| && added[k].externalId == batch[j].externalId;
    NewRowsEntry(t.rows, batch, t.nextId, StatusConnected, now, k);
    var j' :| 0 <= j' < |batch| && batch[j'].externalId == added[k].externalId && batch[j'].username == added[k].username;
    assert DistinctExternalIds(batch);
    assert j' == j;
    var row := added[k];
    assert row in u.rows;
    assert ActiveMatch(row, batch[j].username);
  }

  /** GetActiveConnections' WHERE clause: connected rows, of one user when a
      username is given. */
  predicate ActiveMatch(r: ConnectionRow, username: string) {
    r.status == StatusConnected && (username == "" || r.username == username)
  }

  function ActiveOf(username: string): ConnectionRow -> bool {
    (row: ConnectionRow) => ActiveMatch(row, username)
  }

  /** The ordering key of `connected_at desc`. */
  function NewestFirst(r: ConnectionRow): int { -r.connectedAt }

  ghost predicate NewestFirstOrder(rows: seq<ConnectionRow>) {
    forall i, j :: 0 <= i < j < |rows| ==> rows[i].connectedAt >= rows[j].connectedAt
  }

  /** The rows GetActiveConnections returns, before conversion. */
  function ActiveRows(t: ConnectionTable, username: string, page: Option<Pagination>)
    : (r: (seq<ConnectionRow>, Option<Pagination>))
    ensures forall row :: row in r.0 ==> row in t.rows && ActiveMatch(row, username)
    ensures NewestFirstOrder(r.0)
    ensures page.None? ==> r.1.None?
    ensures page.None? ==> forall row :: row in t.rows && ActiveMatch(row, username) ==> row in r.0
    ensures page.Some? ==> r.1.Some? && r.1.value.total == |Util.Select(t.rows, ActiveOf(username))|
    ensures page.Some? ==> |r.0| <= r.1.value.pageSize
    ensures var sorted := Sorting.SortBy(Util.Select(t.rows, ActiveOf(username)), NewestFirst);
      && (page.None? ==> r.0 == sorted)
      && (page.Some? ==> var (q, w) := Scopes.Paginate(page.value, |sorted|);
            r.1 == Some(q) && r.0 == Scopes.Page(sorted, w))
  {
    var matching := Util.Select(t.rows, ActiveOf(username));
    var sorted := Sorting.SortBy(matching, NewestFirst);
    Sorting.SortedMembers(matching, sorted);
    match page
    case None => (sorted, None)
    case Some(p) =>
      var (q, w) := Scopes.Paginate(p, |matching|);
      var rows := Scopes.Page(sorted, w);
      PageOfSorted(sorted, w);
      (rows, Some(q))
  }

  /** A window of a newest-first list is newest-first and drawn from it. */
  lemma PageOfSorted(sorted: seq<ConnectionRow>, w: Scopes.Window)
    requires w.offset >= 0 && w.limit >= 0
    requires Sorting.SortedBy(sorted, NewestFirst)
    ensures NewestFirstOrder(Scopes.Page(sorted, w))
    ensures forall row :: row in Scopes.Page(sorted, w) ==> row in sorted
  {
    Scopes.PageSorted(sorted, w, NewestFirst);
    var rows := Scopes.Page(sorted, w);
    forall i, j | 0 <= i < j < |rows| ensures rows[i].connectedAt >= rows[j].connectedAt {
      assert NewestFirst(rows[i]) <= NewestFirst(rows[j]);
    }
  }

  /** GetActiveConnections: connected rows, filtered by username when one is
      given, newest connection first; when a page is requested its totals
      are filled in and only that page's rows are returned. */
  function GetActiveConnections(t: ConnectionTable, username: string, page: Option<Pagination>)
    : (r: (seq<Connection>, Option<Pagination>))
    ensures forall c :: c in r.0 ==> c.status == StatusConnected && (username == "" || c.username == username)
    ensures forall c :: c in r.0 ==> exists row :: row in t.rows && ToConnection(row) == c
    ensures forall i, j :: 0 <= i < j < |r.0| ==> r.0[i].connectedAt >= r.0[j].connectedAt
    ensures page.None? ==> r.1.None?
    ensures page.None? ==> forall row :: row in t.rows && ActiveMatch(row, username) ==> ToConnection(row) in r.0
    ensures page.Some? ==> r.1.Some? && r.1.value.total == |Util.Select(t.rows, ActiveOf(username))|
    ensures page.Some? ==> |r.0| <= r.1.value.pageSize
    ensures var sorted := Sorting.SortBy(Util.Select(t.rows, ActiveOf(username)), NewestFirst);
      && (page.None? ==> r.0 == ToConnections(sorted))
      && (page.Some? ==> var (q, w) := Scopes.Paginate(page.value, |sorted|);
            r.1 == Some(q) && r.0 == ToConnections(Scopes.Page(sorted, w)))
  {
    var (rows, q) := ActiveRows(t, username, page);
    var cs := ToConnections(rows);
    assert forall i :: 0 <= i < |cs| ==> cs[i].connectedAt == rows[i].connectedAt;
    (cs, q)
  }

  /** Paging loses nothing: every connected row the filter keeps is returned
      on some page, whatever the page size. */
  lemma EveryConnectionListed(t: ConnectionTable, username: string, size: int, row: ConnectionRow)
    requires 1 <= size <= Scopes.MaxPageSize
    requires row in t.rows && ActiveMatch(row, username)
    ensures exists pg :: pg >= 1 && ToConnection(row) in GetActiveConnections(t, username, Some(Pagination(pg, size, 0, 0))).0
  {
    var matching := Util.Select(t.rows, ActiveOf(username));
    var sorted := Sorting.SortBy(matching, NewestFirst);
    Sorting.SortedMembers(matching, sorted);
    assert row in matching;
    assert row in sorted;
    var pg, j := Scopes.PlaceOf(sorted, size, row);
    var shown := Scopes.Page(sorted, Scopes.Paginate(Pagination(pg, size, 0, 0), |sorted|).1);
    assert row in shown;
    assert GetActiveConnections(t, username, Some(Pagination(pg, size, 0, 0))).0 == ToConnections(shown);
  }

  /** GetUserActiveConnections: the connected rows of exactly `username`, in
      table order. Unlike GetActiveConnections, an empty name is matched
      literally. */
  function GetUserActiveConnections(t: ConnectionTable, username: string): (r: seq<Connection>)
    ensures forall c :: c in r ==> c.status == StatusConnected && c.username == username
    ensures forall row :: row in t.rows && row.status == StatusConnected && row.username == username ==>
      ToConnection(row) in r
    ensures forall c :: c in r ==> exists row :: row in t.rows && ToConnection(row) == c
  {
    var rows := Util.Select(t.rows, (row: ConnectionRow) => row.status == StatusConnected && row.username == username);
    ToConnections(rows)
  }

  /** Disconnect: the row with that id is marked disconnected and stamped;
      its counters are overwritten with the given ones, except that a zero
      counter is not written, since a struct update skips zero fields. */
  function Disconnect(t: ConnectionTable, id: int, download: int, upload: int, now: Time): (r: ConnectionTable)
    ensures r.nextId == t.nextId && |r.rows| == |t.rows|
    ensures forall i :: 0 <= i < |t.rows| && t.rows[i].id != id ==> r.rows[i] == t.rows[i]
    ensures forall i :: 0 <= i < |t.rows| && t.rows[i].id == id ==>
      && r.rows[i].status == StatusDisconnected && r.rows[i].updatedAt == now
      && r.rows[i].download == (if download == 0 then t.rows[i].download else download)
      && r.rows[i].upload == (if upload == 0 then t.rows[i].upload else upload)
      && r.rows[i].(status := t.rows[i].status, updatedAt := t.rows[i].updatedAt,
                    download := t.rows[i].download, upload := t.rows[i].upload) == t.rows[i]
  {
    t.(rows := seq(|t.rows|, i requires 0 <= i < |t.rows| =>
      var row := t.rows[i];
      if row.id != id then row
      else row.(status := StatusDisconnected,
                download := if download != 0 then download else row.download,
                upload := if upload != 0 then upload else row.upload,
                updatedAt := now)))
  }

  /** Marking a row twice with the same counters is marking it once. */
  lemma DisconnectIdempotent(t: ConnectionTable, id: int, download: int, upload: int, now: Time)
    ensures Disconnect(Disconnect(t, id, download, upload, now), id, download, upload, now)
         == Disconnect(t, id, download, upload, now)
  {
    var once := Disconnect(t, id, download, upload, now);
    assert Disconnect(once, id, download, upload, now).rows == once.rows;
  }

  /** DisconnectID: the row with that id is marked disconnected and stamped,
      and its external id is returned; with no such row nothing changes and
      the empty string is returned. */
  function DisconnectID(t: ConnectionTable, id: int, now: Time): (r: (ConnectionTable, string))
    ensures |r.0.rows| == |t.rows| && r.0.nextId == t.nextId
    ensures forall i :: 0 <= i < |t.rows| ==>
      r.0.rows[i] == if t.rows[i].id == id then t.rows[i].(status := StatusDisconnected, updatedAt := now) else t.rows[i]
    ensures (forall i :: 0 <= i < |t.rows| ==> t.rows[i].id != id) ==> r.1 == "" && r.0 == t
    ensures Valid(t) ==> forall i :: 0 <= i < |t.rows| && t.rows[i].id == id ==> r.1 == t.rows[i].externalId
  {
    var rows := seq(|t.rows|, i requires 0 <= i < |t.rows| =>
      if t.rows[i].id == id then t.rows[i].(status := StatusDisconnected, updatedAt := now) else t.rows[i]);
    var matched := Util.Select(t.rows, (row: ConnectionRow) => row.id == id);
    if |matched| == 0 then
      forall i | 0 <= i < |t.rows| ensures t.rows[i].id != id {
        assert t.rows[i] in t.rows;
      }
      assert rows == t.rows;
      (t, "")
    else
      assert matched[0] in matched;
      var k :| 0 <= k < |t.rows| && t.rows[k] == matched[0];
      assert Valid(t) ==> forall i :: 0 <= i < |t.rows| && t.rows[i].id == id ==> i == k;
      (t.(rows := rows), matched[0].externalId)
  }

  predicate IsConnectedRow(r: ConnectionRow) { r.status == StatusConnected }

  function DownloadOf(r: ConnectionRow): int { r.download }
  function UploadOf(r: ConnectionRow): int { r.upload }
  function UsernameOfRow(r: ConnectionRow): string { r.username }

  /** GetSystemStatus as the repository fills it: connected rows and distinct
      connected usernames are counted, while the traffic sums run over every
      row whatever its status; the user total is left for the service. */
  function GetSystemStatus(t: ConnectionTable): (r: SystemStatus)
    ensures r.totalUsers == 0
    ensures r.onlineUsers <= r.totalActiveConnections
    ensures r.onlineUsers == |set row | row in t.rows && row.status == StatusConnected :: row.username|
    ensures r.totalActiveConnections == |Util.Select(t.rows, IsConnectedRow)|
    ensures r.totalDownload == Util.Sum(t.rows, DownloadOf) && r.totalUpload == Util.Sum(t.rows, UploadOf)
  {
    var connected := Util.Select(t.rows, IsConnectedRow);
    var names := Util.Image(connected, UsernameOfRow);
    assert names == set row | row in t.rows && row.status == StatusConnected :: row.username;
    Util.ImageAtMost(connected, UsernameOfRow);
    SystemStatus(|connected|, |names|, 0, Util.Sum(t.rows, DownloadOf), Util.Sum(t.rows, UploadOf))
  }

  /** The figures grow row by row: one more row adds its counters to the
      traffic sums whatever its status, and counts as an active connection
      exactly when it is connected. */
  lemma SystemStatusSnoc(t: ConnectionTable, row: ConnectionRow)
    ensures var before := GetSystemStatus(t);
      var after := GetSystemStatus(t.(rows := t.rows + [row]));
      && after.totalDownload == before.totalDownload + row.download
      && after.totalUpload == before.totalUpload + row.upload
      && after.totalActiveConnections == before.totalActiveConnections + (if row.status == StatusConnected then 1 else 0)
  {
    Util.SumAppend(t.rows, [row], DownloadOf);
    Util.SumAppend(t.rows, [row], UploadOf);
    Util.SelectSnoc(t.rows, row, IsConnectedRow);
    assert [row][1..] == [];
  }

  /** An empty table reports nothing. */
  lemma SystemStatusEmpty(t: ConnectionTable)
    requires t.rows == []
    ensures GetSystemStatus(t) == SystemStatus(0, 0, 0, 0, 0)
  {
  }

  /** Statuses do not enter the traffic totals: marking a connection
      disconnected by id leaves both sums where they were. */
  lemma DisconnectIDKeepsTotals(t: ConnectionTable, id: int, now: Time)
    ensures GetSystemStatus(DisconnectID(t, id, now).0).totalDownload == GetSystemStatus(t).totalDownload
    ensures GetSystemStatus(DisconnectID(t, id, now).0).totalUpload == GetSystemStatus(t).totalUpload
  {
    var t1 := DisconnectID(t, id, now).0;
    Util.SumPointwise(t1.rows, t.rows, DownloadOf);
    Util.SumPointwise(t1.rows, t.rows, UploadOf);
  }
}
