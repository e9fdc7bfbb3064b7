/** The poller of cmd/jupiter/main.go: every tick it reads the VPN server's
    session listing, converts it to connection records, upserts them and runs
    the reconciliation cycle; a failure counter decides when the VPN server
    is shut down. The clock readings and the time-of-day parse are
    parameters. */
module Manager {
  import opened Wrappers
  import opened Model
  import Util
  import Decimal
  import ConnectionModel
  import PackageStore
  import ConnectionStore
  import ConnectionService
  import Reconcile

  /** A session as the VPN server's listing reports it; the listing's other
      fields are not read by the poller. The counters and the connection time
      are text. */
  datatype OcConnection = OcConnection(
    id: int,
    username: string,
    remoteIp: string,
    location: string,
    userAgent: string,
    hostname: string,
    rx: string,
    tx: string,
    connectedAt: string)

  /** toModelConnectionEntity. The server's transmit counter is the user's
      download and its receive counter the user's upload; a counter that does
      not parse is 0, and one out of 64-bit range is clamped as strconv.Atoi
      clamps it. The connection time is `parse` of the listed text (the layout
      parse is not modelled), and the update stamp is the clock reading `now`
      taken for this entry. */
  function ToConnectionEntity(e: OcConnection, parse: string -> Time, now: Time): (r: Connection)
    ensures r.externalId == Decimal.Itoa(e.id) && r.username == e.username
    ensures r.download == Decimal.AtoiValue(e.tx) && r.upload == Decimal.AtoiValue(e.rx)
    ensures r.connectedAt == parse(e.connectedAt) && r.updatedAt == now
    ensures r.id == 0 && r.status == ""
  {
    Connection(0, Decimal.Itoa(e.id), e.username, "", e.remoteIp, e.location, e.userAgent, e.hostname,
               Decimal.AtoiValue(e.tx), Decimal.AtoiValue(e.rx), parse(e.connectedAt), now)
  }

  /** Counters the server writes as decimals within 64 bits come through
      unchanged, and the external id reads back as the session id. */
  lemma CountersSurvive(e: OcConnection, parse: string -> Time, now: Time, download: int, upload: int)
    requires e.tx == Decimal.Itoa(download) && e.rx == Decimal.Itoa(upload)
    requires Decimal.MinInt64 <= download <= Decimal.MaxInt64 && Decimal.MinInt64 <= upload <= Decimal.MaxInt64
    requires Decimal.MinInt64 <= e.id <= Decimal.MaxInt64
    ensures var c := ToConnectionEntity(e, parse, now);
      c.download == download && c.upload == upload && Decimal.AtoiValue(c.externalId) == e.id
  {
    Decimal.AtoiItoa(download);
    Decimal.AtoiItoa(upload);
    Decimal.AtoiItoa(e.id);
  }

  /** toModelConnectionEntities. Entry i is converted with the clock reading
      `clock[i]`, since each conversion reads the clock anew. An empty
      listing gives no records and the zero time as cutoff; otherwise the
      cutoff is the first record's update stamp. */
  function ToConnectionEntities(req: seq<OcConnection>, parse: string -> Time, clock: seq<Time>): (r: (seq<Connection>, Time))
    requires |clock| == |req|
    ensures |r.0| == |req|
    ensures forall i :: 0 <= i < |req| ==> r.0[i] == ToConnectionEntity(req[i], parse, clock[i])
    ensures |req| == 0 ==> r.1 == 0
    ensures |req| > 0 ==> r.1 == r.0[0].updatedAt
  {
    if |req| == 0 then ([], 0)
    else
      var result := seq(|req|, i requires 0 <= i < |req| => ToConnectionEntity(req[i], parse, clock[i]));
      (result, result[0].updatedAt)
  }

  /** A clock that never runs backwards. */
  ghost predicate Monotone(clock: seq<Time>) {
    forall i, j :: 0 <= i < j < |clock| ==> clock[i] <= clock[j]
  }

  /** Sessions with distinct ids become records with distinct external ids,
      so the upsert never sees one external id twice. */
  lemma DistinctSessionsDistinctRecords(req: seq<OcConnection>, parse: string -> Time, clock: seq<Time>)
    requires |clock| == |req|
    requires forall i, j :: 0 <= i < j < |req| ==> req[i].id != req[j].id
    ensures ConnectionStore.DistinctExternalIds(ToConnectionEntities(req, parse, clock).0)
  {
    var batch := ToConnectionEntities(req, parse, clock).0;
    forall i, j | 0 <= i < j < |batch| ensures batch[i].externalId != batch[j].externalId {
      if batch[i].externalId == batch[j].externalId {
        Decimal.ItoaInjective(req[i].id, req[j].id);
      }
    }
  }

  /** With a clock that never runs backwards, the cutoff is no later than
      any record's update stamp. */
  lemma CutoffIsEarliest(req: seq<OcConnection>, parse: string -> Time, clock: seq<Time>)
    requires |clock| == |req| && Monotone(clock)
    ensures var r := ToConnectionEntities(req, parse, clock);
      forall c :: c in r.0 ==> r.1 <= c.updatedAt
  {
  }

  /** What one cycle left behind: the stores, the calls the reconciliation
      issued, and the error manageConnections returned. */
  datatype Cycle = Cycle(stores: ConnectionService.Stores, trace: seq<Reconcile.Action>, error: Option<Error>)

  /** The upsert of a converted listing: the store's own refusals, then a
      failure of the database call itself (`fault`). */
  function Upsert(s: ConnectionService.Stores, batch: seq<Connection>, now: Time, status: string,
                  fault: Option<Error>): (r: Result<ConnectionService.Stores>)
    ensures |batch| == 0 ==> r == Err(ConnectionStore.EmptyBatch)
    ensures r.Ok? <==> |batch| > 0 && ConnectionStore.DistinctExternalIds(batch) && fault.None?
    ensures r.Ok? ==> r.value == s.(connections := ConnectionStore.UpsertConnections(s.connections, batch, now, status).value)
  {
    match ConnectionStore.UpsertConnections(s.connections, batch, now, status)
    case Err(e) => Err(e)
    case Ok(t) => if fault.Some? then Err(fault.value) else Ok(s.(connections := t))
  }

  /** The key orders the reconciliation of stores `s` iterates in. */
  ghost predicate CycleOrders(s: ConnectionService.Stores, now: Time, order: seq<string>, packageOrder: seq<int>) {
    && Util.IsEnumeration(order, Util.MapElementsBy(ConnectionService.ConnectedNow(s), UsernameOf).Keys)
    && Util.IsEnumeration(packageOrder, PackageStore.GroupScan(PackageStore.BatchScan(
         s.packages, ConnectionService.UserIds(ConnectionService.UsersOf(s, order)), now)).Keys)
  }

  /** manageConnections. The listing (or the error reading it), the clock
      readings of its conversion and the store's clock `now` are inputs. A
      failed read writes nothing; a failed upsert is returned before any
      reconciliation; otherwise the reconciliation runs on the upserted
      stores with the conversion's cutoff. */
  function ManageConnections(s: ConnectionService.Stores, listing: Result<seq<OcConnection>>, parse: string -> Time,
                             clock: seq<Time>, now: Time, status: string, upsertFault: Option<Error>,
                             order: seq<string>, packageOrder: seq<int>, readFaults: ConnectionService.ReadFaults,
                             nonFinite: int, faults: Reconcile.Faults): (r: Cycle)
    requires listing.Ok? ==> |clock| == |listing.value|
    requires listing.Ok? ==>
      var batch := ToConnectionEntities(listing.value, parse, clock).0;
      var up := Upsert(s, batch, now, status, upsertFault);
      up.Ok? ==> CycleOrders(up.value, now, order, packageOrder)
    ensures listing.Err? ==> r == Cycle(s, [], Some(listing.error))
    ensures listing.Ok? && |listing.value| == 0 ==> r == Cycle(s, [], Some(ConnectionStore.EmptyBatch))
    ensures listing.Ok? ==>
      var batch := ToConnectionEntities(listing.value, parse, clock).0;
      var up := Upsert(s, batch, now, status, upsertFault);
      && (up.Err? ==> r == Cycle(s, [], Some(up.error)))
      && (up.Ok? ==>
            var run := ConnectionService.ManageActiveConnections(up.value, now, ToConnectionEntities(listing.value, parse, clock).1,
                                                                 order, packageOrder, readFaults, nonFinite, faults);
            r == Cycle(up.value, run.trace, run.error))
  {
    match listing
    case Err(e) => Cycle(s, [], Some(e))
    case Ok(sessions) =>
      var (batch, cutoff) := ToConnectionEntities(sessions, parse, clock);
      match Upsert(s, batch, now, status, upsertFault)
      case Err(e) => Cycle(s, [], Some(e))
      case Ok(s1) =>
        var run := ConnectionService.ManageActiveConnections(s1, now, cutoff, order, packageOrder, readFaults, nonFinite, faults);
        Cycle(s1, run.trace, run.error)
  }

  /** A server with nobody connected fails the cycle: the empty listing
      reaches the upsert, which refuses an empty batch, so the failure
      counter grows on every idle tick and stale rows are never closed. */
  lemma IdleCycleFails(s: ConnectionService.Stores, parse: string -> Time, now: Time, status: string,
                       upsertFault: Option<Error>, order: seq<string>, packageOrder: seq<int>,
                       readFaults: ConnectionService.ReadFaults, nonFinite: int, faults: Reconcile.Faults)
    ensures var r := ManageConnections(s, Ok([]), parse, [], now, status, upsertFault, order, packageOrder,
                                       readFaults, nonFinite, faults);
      r.error.Some? && r.trace == [] && r.stores == s
  {
  }

  /** A non-empty listing of distinct sessions, upserted without a database
      failure, reaches the reconciliation; and, with clocks that never run
      backwards and a store clock no earlier than the conversion's, no
      connected row of a listed session is older than the cutoff, so the
      cycle never closes a session the server still lists as stale. */
  lemma ListedSessionsStayOpen(s: ConnectionService.Stores, listing: seq<OcConnection>, parse: string -> Time,
                               clock: seq<Time>, now: Time, status: string)
    requires |clock| == |listing| > 0 && Monotone(clock) && clock[|clock| - 1] <= now
    requires forall i, j :: 0 <= i < j < |listing| ==> listing[i].id != listing[j].id
    ensures var (batch, cutoff) := ToConnectionEntities(listing, parse, clock);
      var up := Upsert(s, batch, now, status, None);
      && up.Ok?
      && forall c :: c in ConnectionService.ConnectedNow(up.value) && ConnectionStore.Find(batch, c.externalId).Some? ==>
           !Reconcile.IsStale(cutoff)(c)
  {
    var (batch, cutoff) := ToConnectionEntities(listing, parse, clock);
    DistinctSessionsDistinctRecords(listing, parse, clock);
    var up := Upsert(s, batch, now, status, None);
    var t := ConnectionStore.UpsertConnections(s.connections, batch, now, status).value;
    ConnectionStore.UpsertStampsBatch(s.connections, batch, now, status);
    assert cutoff == clock[0] <= now;
    forall c | c in ConnectionService.ConnectedNow(up.value) && ConnectionStore.Find(batch, c.externalId).Some?
      ensures !Reconcile.IsStale(cutoff)(c)
    {
      var row :| row in t.rows && ConnectionModel.ToConnection(row) == c;
      var i :| 0 <= i < |t.rows| && t.rows[i] == row;
      assert row.updatedAt == now;
    }
  }

  /** The poller's settings. */
  datatype Config = Config(maxFailures: int, shutdownOnMaxFailure: bool)

  /** The loop's state: failed cycles so far, and whether the process has
      exited. */
  datatype LoopState = LoopState(failures: nat, exited: bool)

  const Start: LoopState := LoopState(0, false)

  /** What one tick meets: the shutdown call's failure, if it is made, and
      the cycle's error. */
  datatype TickInput = TickInput(shutdownFault: Option<Error>, cycle: Option<Error>)

  datatype TickReply = TickReply(state: LoopState, shutdown: bool)

  /** One tick of the loop. Shutdown is attempted when the counter equals
      the limit and the flag is set; a failed shutdown ends the process
      before the cycle runs. A failed cycle adds one to the counter, and
      nothing ever resets it. */
  function Tick(cfg: Config, st: LoopState, input: TickInput): (r: TickReply)
    ensures st.exited ==> r == TickReply(st, false)
    ensures r.shutdown <==> !st.exited && st.failures == cfg.maxFailures && cfg.shutdownOnMaxFailure
    ensures r.state.exited <==> st.exited || (r.shutdown && input.shutdownFault.Some?)
    ensures r.state.exited ==> r.state.failures == st.failures
    ensures !r.state.exited ==> r.state.failures == st.failures + (if input.cycle.Some? then 1 else 0)
  {
    if st.exited then TickReply(st, false)
    else
      var shutdown := st.failures == cfg.maxFailures && cfg.shutdownOnMaxFailure;
      if shutdown && input.shutdownFault.Some? then TickReply(st.(exited := true), true)
      else TickReply(st.(failures := st.failures + if input.cycle.Some? then 1 else 0), shutdown)
  }

  datatype RunReply = RunReply(state: LoopState, shutdowns: seq<bool>)

  /** The loop over a sequence of ticks: the final state and, per tick,
      whether shutdown was attempted. */
  function Run(cfg: Config, st: LoopState, inputs: seq<TickInput>): (r: RunReply)
    ensures |r.shutdowns| == |inputs|
    decreases |inputs|
  {
    if |inputs| == 0 then RunReply(st, [])
    else
      var t := Tick(cfg, st, inputs[0]);
      var rest := Run(cfg, t.state, inputs[1..]);
      RunReply(rest.state, [t.shutdown] + rest.shutdowns)
  }

  /** The number of failed cycles among the inputs. */
  function Failures(inputs: seq<TickInput>): (n: nat)
    ensures n <= |inputs|
  {
    if |inputs| == 0 then 0 else (if inputs[0].cycle.Some? then 1 else 0) + Failures(inputs[1..])
  }

  /** The counter never goes down and an exit is final; while the process
      lives, the counter is exactly the number of failed cycles. */
  lemma {:induction false} CounterCountsFailures(cfg: Config, st: LoopState, inputs: seq<TickInput>)
    ensures var r := Run(cfg, st, inputs);
      && r.state.failures >= st.failures
      && (st.exited ==> r.state == st)
      && (!r.state.exited ==> r.state.failures == st.failures + Failures(inputs))
    decreases |inputs|
  {
    if |inputs| > 0 {
      var t := Tick(cfg, st, inputs[0]);
      CounterCountsFailures(cfg, t.state, inputs[1..]);
      if t.state.exited && !st.exited {
        assert Run(cfg, st, inputs).state == t.state;
      }
    }
  }

  /** Once the counter is past the limit, shutdown is never attempted
      again. */
  lemma {:induction false} NoShutdownPastLimit(cfg: Config, st: LoopState, inputs: seq<TickInput>)
    requires st.failures > cfg.maxFailures
    ensures forall i :: 0 <= i < |inputs| ==> !Run(cfg, st, inputs).shutdowns[i]
    decreases |inputs|
  {
    if |inputs| > 0 {
      var t := Tick(cfg, st, inputs[0]);
      NoShutdownPastLimit(cfg, t.state, inputs[1..]);
      var r := Run(cfg, st, inputs);
      forall i | 0 <= i < |inputs| ensures !r.shutdowns[i] {
        if i > 0 {
          assert r.shutdowns[i] == Run(cfg, t.state, inputs[1..]).shutdowns[i - 1];
        }
      }
    }
  }

  /** While every cycle fails, shutdown is attempted on at most one tick. */
  lemma {:induction false} AtMostOneShutdownWhileFailing(cfg: Config, st: LoopState, inputs: seq<TickInput>)
    requires forall i :: 0 <= i < |inputs| ==> inputs[i].cycle.Some?
    ensures forall i, j :: 0 <= i < j < |inputs| && Run(cfg, st, inputs).shutdowns[i] ==> !Run(cfg, st, inputs).shutdowns[j]
    decreases |inputs|
  {
    if |inputs| > 0 {
      var t := Tick(cfg, st, inputs[0]);
      var rest := Run(cfg, t.state, inputs[1..]);
      var r := Run(cfg, st, inputs);
      assert forall k :: 0 <= k < |rest.shutdowns| ==> r.shutdowns[k + 1] == rest.shutdowns[k];
      AtMostOneShutdownWhileFailing(cfg, t.state, inputs[1..]);
      if t.shutdown && !t.state.exited {
        NoShutdownPastLimit(cfg, t.state, inputs[1..]);
      }
      if t.state.exited {
        NoShutdownAfterExit(cfg, t.state, inputs[1..]);
      }
    }
  }

  /** An exited process attempts nothing. */
  lemma {:induction false} NoShutdownAfterExit(cfg: Config, st: LoopState, inputs: seq<TickInput>)
    requires st.exited
    ensures forall i :: 0 <= i < |inputs| ==> !Run(cfg, st, inputs).shutdowns[i]
    decreases |inputs|
  {
    if |inputs| > 0 {
      NoShutdownAfterExit(cfg, st, inputs[1..]);
      var r := Run(cfg, st, inputs);
      assert forall k :: 0 < k < |inputs| ==> r.shutdowns[k] == Run(cfg, st, inputs[1..]).shutdowns[k - 1];
    }
  }

  /** While the counter sits at the limit with the flag set and every cycle
      and every shutdown call succeeds, shutdown is attempted on every tick
      and the state does not change. */
  lemma {:induction false} ShutdownEveryTickAtLimit(cfg: Config, st: LoopState, inputs: seq<TickInput>)
    requires !st.exited && st.failures == cfg.maxFailures && cfg.shutdownOnMaxFailure
    requires forall i :: 0 <= i < |inputs| ==> inputs[i] == TickInput(None, None)
    ensures var r := Run(cfg, st, inputs);
      r.state == st && forall i :: 0 <= i < |inputs| ==> r.shutdowns[i]
    decreases |inputs|
  {
    if |inputs| > 0 {
      ShutdownEveryTickAtLimit(cfg, st, inputs[1..]);
      var r := Run(cfg, st, inputs);
      assert forall k :: 0 < k < |inputs| ==> r.shutdowns[k] == Run(cfg, st, inputs[1..]).shutdowns[k - 1];
    }
  }

  /** A limit of zero with the flag set attempts shutdown on the very first
      tick, before any cycle has failed. */
  lemma ZeroLimitShutsDownAtOnce(input: TickInput)
    ensures Tick(Config(0, true), Start, input).shutdown
  {
  }
}
