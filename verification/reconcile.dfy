/** ManageActiveConnections and DisconnectUser
    (internal/service/connection.go): one reconciliation cycle over the
    connected sessions, as the ordered list of calls it issues to the VPN
    server and the stores. */
module Reconcile {
  import opened Wrappers
  import opened Model
  import Util
  import Sorting
  import opened Split

  /** A call the cycle issues. `DisconnectUser` and `LockUser` go to the VPN
      server; `MarkDisconnected` is the connection store's Disconnect and
      `Debit` the package store's UpdateTrafficUsage. */
  datatype Action =
    | DisconnectUser(username: string)
    | LockUser(username: string)
    | MarkDisconnected(connectionId: int, download: int, upload: int)
    | Debit(packageId: int, download: int, upload: int)

  /** Which calls fail: the VPN server's disconnect and lock calls by
      username, the package store's debit by package id. The connection
      store's Disconnect may fail too, but the cycle only logs that, so it
      leaves no trace here. */
  datatype Faults = Faults(disconnectFails: set<string>, lockFails: set<string>, debitFails: map<int, Error>)

  /** The calls a stretch of the cycle issued, in order, and the error that
      ended the whole cycle, if one did. */
  datatype Run = Run(trace: seq<Action>, error: Option<Error>)

  function MarkOf(c: Connection): Action {
    MarkDisconnected(c.id, c.download, c.upload)
  }

  /** One Disconnect call per connection, each with the connection's own
      counters. */
  function Marks(conns: seq<Connection>): (r: seq<Action>)
    ensures |r| == |conns|
    ensures forall i :: 0 <= i < |conns| ==> r[i] == MarkOf(conns[i])
  {
    seq(|conns|, i requires 0 <= i < |conns| => MarkOf(conns[i]))
  }

  /** Every mark is a connection's, and every connection has its mark. */
  lemma MarksExactly(conns: seq<Connection>)
    ensures forall a :: a in Marks(conns) <==> exists c :: c in conns && a == MarkOf(c)
  {
    var ms := Marks(conns);
    forall a | exists c :: c in conns && a == MarkOf(c) ensures a in ms {
      var c :| c in conns && a == MarkOf(c);
      var i :| 0 <= i < |conns| && conns[i] == c;
      assert ms[i] == a;
    }
  }

  /** DisconnectUser: the session is cut and the account locked on the VPN
      server; only when both succeed is each of the user's connections
      marked disconnected with its own counters. A failure is logged and
      the cycle goes on. */
  function DisconnectUserTrace(username: string, conns: seq<Connection>, faults: Faults): (r: seq<Action>)
    ensures |r| >= 1 && r[0] == DisconnectUser(username)
    ensures username in faults.disconnectFails ==> r == [DisconnectUser(username)]
    ensures username !in faults.disconnectFails ==> |r| >= 2 && r[1] == LockUser(username)
    ensures forall a :: a in r ==> !a.Debit?
    ensures forall a :: a in r && (a.DisconnectUser? || a.LockUser?) ==> a.username == username
    ensures forall a :: a in r && a.MarkDisconnected? ==>
      username !in faults.disconnectFails && username !in faults.lockFails &&
      exists c :: c in conns && a == MarkOf(c)
    ensures username !in faults.disconnectFails && username !in faults.lockFails ==>
      forall c :: c in conns ==> MarkOf(c) in r
  {
    MarksExactly(conns);
    if username in faults.disconnectFails then [DisconnectUser(username)]
    else if username in faults.lockFails then [DisconnectUser(username), LockUser(username)]
    else
      var r := [DisconnectUser(username), LockUser(username)] + Marks(conns);
      assert forall a :: a in r && a.MarkDisconnected? ==> a in Marks(conns);
      assert forall a :: a in Marks(conns) ==> a in r;
      r
  }

  function IsStale(cutoff: Time): Connection -> bool {
    (c: Connection) => c.updatedAt < cutoff
  }

  /** The finalisation loop: each connection last refreshed before the
      cutoff is marked disconnected with its own counters. */
  function Finalize(conns: seq<Connection>, cutoff: Time): (r: seq<Action>)
    ensures |r| <= |conns|
    ensures forall a :: a in r <==> exists c :: c in conns && c.updatedAt < cutoff && a == MarkOf(c)
    ensures var stale := Util.Select(conns, IsStale(cutoff));
      |r| == |stale| && forall i :: 0 <= i < |stale| ==> r[i] == MarkOf(stale[i])
  {
    var stale := Util.Select(conns, IsStale(cutoff));
    MarksExactly(stale);
    Marks(stale)
  }

  /** The finalisation goes through the connections in order: finalising
      two stretches one after the other is finalising them together. */
  lemma FinalizeAppend(a: seq<Connection>, b: seq<Connection>, cutoff: Time)
    ensures Finalize(a + b, cutoff) == Finalize(a, cutoff) + Finalize(b, cutoff)
  {
    Util.SelectAppend(a, b, IsStale(cutoff));
  }

  /** A single connection gets exactly one mark, with its own counters, when
      it is stale, and none otherwise. */
  lemma FinalizeOne(c: Connection, cutoff: Time)
    ensures Finalize([c], cutoff) == if c.updatedAt < cutoff then [MarkOf(c)] else []
  {
    assert [c][1..] == [];
  }

  /** How much a call charges to a package. */
  function ChargeOf(a: Action): int {
    if a.Debit? then a.download + a.upload else 0
  }

  /** What the reserved-package loop did: its debits, the traffic still
      unaccounted for, and the error that aborted it. */
  datatype CascadeResult = CascadeResult(trace: seq<Action>, remaining: int, error: Option<Error>)

  /** The reserved-package loop. A package whose limit exceeds what is left
      absorbs all of it and ends the loop; any other package is charged its
      whole limit and what is left shrinks by the truncated amount actually
      debited. The package's own earlier usage plays no part. A failing
      debit aborts. */
  function Cascade(packs: seq<Package>, remaining: int, download: int, upload: int, nonFinite: int, faults: Faults)
    : (r: CascadeResult)
    ensures |r.trace| <= |packs|
    ensures forall i {:trigger r.trace[i]} :: 0 <= i < |r.trace| ==> r.trace[i].Debit? && r.trace[i].packageId == packs[i].id
    ensures forall i :: 0 <= i < |r.trace| - 1 ==> r.trace[i].packageId !in faults.debitFails
    ensures r.error.Some? ==>
      (|r.trace| > 0 && packs[|r.trace| - 1].id in faults.debitFails &&
       r.error.value == faults.debitFails[packs[|r.trace| - 1].id])
    ensures r.error.None? ==> forall i :: 0 <= i < |r.trace| ==> r.trace[i].packageId !in faults.debitFails
    ensures r.error.None? && |r.trace| < |packs| ==> r.remaining == 0
    decreases |packs|
  {
    if |packs| == 0 then CascadeResult([], remaining, None)
    else
      var p := packs[0];
      if p.trafficLimit > remaining then
        var (d, u) := SplitUsage(download, upload, remaining, nonFinite);
        if p.id in faults.debitFails then CascadeResult([Debit(p.id, d, u)], remaining, Some(faults.debitFails[p.id]))
        else CascadeResult([Debit(p.id, d, u)], 0, None)
      else
        var (d, u) := SplitUsage(download, upload, p.trafficLimit, nonFinite);
        if p.id in faults.debitFails then CascadeResult([Debit(p.id, d, u)], remaining, Some(faults.debitFails[p.id]))
        else
          var rest := Cascade(packs[1..], remaining - (d + u), download, upload, nonFinite, faults);
          CascadeResult([Debit(p.id, d, u)] + rest.trace, rest.remaining, rest.error)
  }

  /** The loop's first step, for equal totals: the first package is debited
      two equal parts of what it absorbs, and unless that ends the loop the
      rest of the loop runs on what is left. */
  lemma CascadeStep(packs: seq<Package>, remaining: int, total: int, nonFinite: int, faults: Faults)
    requires |packs| > 0
    ensures var p := packs[0];
      var h := SplitUsage(total, total, if p.trafficLimit > remaining then remaining else p.trafficLimit, nonFinite).0;
      var c := Cascade(packs, remaining, total, total, nonFinite, faults);
      && c.trace[0] == Debit(p.id, h, h)
      && (p.trafficLimit > remaining || p.id in faults.debitFails ==> |c.trace| == 1)
      && (p.trafficLimit > remaining && p.id !in faults.debitFails ==> c.remaining == 0 && c.error.None?)
      && (p.trafficLimit <= remaining && p.id !in faults.debitFails ==>
            c.trace == [Debit(p.id, h, h)] + Cascade(packs[1..], remaining - (h + h), total, total, nonFinite, faults).trace &&
            c.remaining == Cascade(packs[1..], remaining - (h + h), total, total, nonFinite, faults).remaining &&
            c.error == Cascade(packs[1..], remaining - (h + h), total, total, nonFinite, faults).error)
  {
    if total != 0 {
      SplitHalves(total, remaining, nonFinite);
      SplitHalves(total, packs[0].trafficLimit, nonFinite);
    }
  }

  /** With equal download and upload totals every debit of the loop is two
      equal halves. */
  lemma {:induction false} CascadeEqualParts(packs: seq<Package>, remaining: int, total: int, nonFinite: int, faults: Faults)
    ensures var c := Cascade(packs, remaining, total, total, nonFinite, faults);
      forall i :: 0 <= i < |c.trace| ==> c.trace[i].download == c.trace[i].upload
    decreases |packs|
  {
    if |packs| > 0 {
      var p := packs[0];
      CascadeStep(packs, remaining, total, nonFinite, faults);
      if p.trafficLimit <= remaining && p.id !in faults.debitFails {
        var h := SplitUsage(total, total, p.trafficLimit, nonFinite).0;
        CascadeEqualParts(packs[1..], remaining - (h + h), total, nonFinite, faults);
      }
    }
  }

  /** Unless the loop aborted, what is left of `charged` is never negative,
      and `charged` equals what was debited plus what is left, less at most
      one unit lost to truncation. */
  ghost predicate Accounted(c: CascadeResult, charged: int) {
    c.error.None? ==> (c.remaining >= 0 && 0 <= charged - Util.Sum(c.trace, ChargeOf) - c.remaining <= 1)
  }

  /** The loop's accounting, for equal non-zero totals and a non-negative
      overage: what is left never goes negative, and the overage equals what
      was debited plus what is left, except that the package that absorbs
      the rest may be charged one unit less, lost to truncation. */
  lemma {:induction false} CascadeAccounts(packs: seq<Package>, remaining: int, total: int, nonFinite: int, faults: Faults)
    requires total != 0 && remaining >= 0
    ensures Accounted(Cascade(packs, remaining, total, total, nonFinite, faults), remaining)
    decreases |packs|
  {
    if |packs| == 0 {
    } else if packs[0].trafficLimit > remaining {
      AbsorbAccounts(packs, remaining, total, nonFinite, faults);
    } else if packs[0].id in faults.debitFails {
      FailStep(packs, remaining, total, nonFinite, faults);
    } else {
      var h := TruncDiv(packs[0].trafficLimit, 2);
      HalfBounds(packs[0].trafficLimit);
      CascadeAccounts(packs[1..], remaining - (h + h), total, nonFinite, faults);
      var rest := Cascade(packs[1..], remaining - (h + h), total, total, nonFinite, faults);
      ChargeStep(packs, remaining, total, nonFinite, faults);
      ChargeAccounts(Cascade(packs, remaining, total, total, nonFinite, faults), Debit(packs[0].id, h, h), rest, remaining);
    }
  }

  /** The loop's step for a package charged its whole limit, for equal
      non-zero totals: two halves of the limit, then the rest of the loop on
      what is left. */
  lemma ChargeStep(packs: seq<Package>, remaining: int, total: int, nonFinite: int, faults: Faults)
    requires |packs| > 0 && total != 0
    requires packs[0].trafficLimit <= remaining && packs[0].id !in faults.debitFails
    ensures var h := TruncDiv(packs[0].trafficLimit, 2);
      var rest := Cascade(packs[1..], remaining - (h + h), total, total, nonFinite, faults);
      Cascade(packs, remaining, total, total, nonFinite, faults) ==
        CascadeResult([Debit(packs[0].id, h, h)] + rest.trace, rest.remaining, rest.error)
  {
    var p := packs[0];
    var h := TruncDiv(p.trafficLimit, 2);
    SplitHalves(total, p.trafficLimit, nonFinite);
    var (d, u) := SplitUsage(total, total, p.trafficLimit, nonFinite);
    assert d == h && u == h;
    var rest := Cascade(packs[1..], remaining - (d + u), total, total, nonFinite, faults);
    assert Cascade(packs, remaining, total, total, nonFinite, faults) ==
      CascadeResult([Debit(p.id, d, u)] + rest.trace, rest.remaining, rest.error);
  }

  /** A package whose debit fails ends the loop with its error. */
  lemma FailStep(packs: seq<Package>, remaining: int, total: int, nonFinite: int, faults: Faults)
    requires |packs| > 0 && packs[0].id in faults.debitFails
    ensures Cascade(packs, remaining, total, total, nonFinite, faults).error == Some(faults.debitFails[packs[0].id])
  {
  }

  /** A debit in front of the rest of the loop keeps the loop's
      accounting. */
  lemma ChargeAccounts(c: CascadeResult, x: Action, rest: CascadeResult, remaining: int)
    requires x.Debit? && c == CascadeResult([x] + rest.trace, rest.remaining, rest.error)
    requires Accounted(rest, remaining - (x.download + x.upload))
    ensures Accounted(c, remaining)
  {
    Util.SumCons(x, rest.trace, ChargeOf);
  }

  /** The package that absorbs the rest is charged it, less at most one
      unit. */
  lemma AbsorbAccounts(packs: seq<Package>, remaining: int, total: int, nonFinite: int, faults: Faults)
    requires |packs| > 0 && total != 0 && remaining >= 0 && packs[0].trafficLimit > remaining
    ensures var c := Cascade(packs, remaining, total, total, nonFinite, faults);
      c.error.None? ==> (c.remaining == 0 && 0 <= remaining - Util.Sum(c.trace, ChargeOf) <= 1)
  {
    CascadeStep(packs, remaining, total, nonFinite, faults);
    SplitHalves(total, remaining, nonFinite);
    HalfBounds(remaining);
    var c := Cascade(packs, remaining, total, total, nonFinite, faults);
    Util.SumCons(c.trace[0], [], ChargeOf);
    assert c.trace == [c.trace[0]] + [];
  }

  /** Properties of a stretch of calls. */

  /** Every debit charges download and upload alike. */
  ghost predicate EvenDebits(trace: seq<Action>) {
    forall i :: 0 <= i < |trace| && trace[i].Debit? ==> trace[i].download == trace[i].upload
  }

  /** Every debit is against the active package or one of the reserved
      ones. */
  ghost predicate DebitsWithin(trace: seq<Action>, packs: UserPackages) {
    forall i :: 0 <= i < |trace| && trace[i].Debit? ==>
      trace[i].packageId == packs.active.id || exists p :: p in packs.reserved && p.id == trace[i].packageId
  }

  /** Every mark carries the counters of one of `conns`. */
  ghost predicate MarksWithin(trace: seq<Action>, conns: seq<Connection>) {
    forall i :: 0 <= i < |trace| && trace[i].MarkDisconnected? ==> exists c :: c in conns && trace[i] == MarkOf(c)
  }

  /** Every VPN call names one of `names`. */
  ghost predicate NamesWithin(trace: seq<Action>, names: set<string>) {
    forall i :: 0 <= i < |trace| && (trace[i].DisconnectUser? || trace[i].LockUser?) ==> trace[i].username in names
  }

  /** A run ends with an error exactly when its last call is a failing
      debit, whose error it reports; a run without an error has no failing
      debit at all. */
  ghost predicate StopsAtFailingDebit(r: Run, faults: Faults) {
    && (r.error.Some? ==>
          |r.trace| > 0 && r.trace[|r.trace| - 1].Debit? &&
          r.trace[|r.trace| - 1].packageId in faults.debitFails &&
          r.error.value == faults.debitFails[r.trace[|r.trace| - 1].packageId])
    && (r.error.None? ==>
          forall i :: 0 <= i < |r.trace| && r.trace[i].Debit? ==> r.trace[i].packageId !in faults.debitFails)
  }

  /** The trace properties hold of a concatenation when they hold of both
      parts. */
  lemma TraceAppend(a: seq<Action>, b: seq<Action>, packs: UserPackages, conns: seq<Connection>, names: set<string>)
    requires EvenDebits(a) && DebitsWithin(a, packs) && MarksWithin(a, conns) && NamesWithin(a, names)
    requires EvenDebits(b) && DebitsWithin(b, packs) && MarksWithin(b, conns) && NamesWithin(b, names)
    ensures EvenDebits(a + b) && DebitsWithin(a + b, packs) && MarksWithin(a + b, conns) && NamesWithin(a + b, names)
  {
    forall i | 0 <= i < |a + b| ensures (a + b)[i] == if i < |a| then a[i] else b[i - |a|] {
    }
  }

  /** The calls DisconnectUser makes have the trace properties. */
  lemma DisconnectUserTraceWithin(username: string, conns: seq<Connection>, packs: UserPackages, faults: Faults)
    ensures var t := DisconnectUserTrace(username, conns, faults);
      EvenDebits(t) && DebitsWithin(t, packs) && MarksWithin(t, conns) && NamesWithin(t, {username})
  {
    var t := DisconnectUserTrace(username, conns, faults);
    assert forall i :: 0 <= i < |t| ==> t[i] in t;
  }

  /** The finalisation loop's calls have the trace properties. */
  lemma FinalizeWithin(conns: seq<Connection>, cutoff: Time, packs: UserPackages, names: set<string>)
    ensures var t := Finalize(conns, cutoff);
      EvenDebits(t) && DebitsWithin(t, packs) && MarksWithin(t, conns) && NamesWithin(t, names)
  {
    var t := Finalize(conns, cutoff);
    assert forall i :: 0 <= i < |t| ==> t[i] in t;
  }

  function TrafficOf(c: Connection): int { c.download + c.upload }

  function DownloadOf(c: Connection): int { c.download }

  /** The order in which reserved packages are drawn on: shortest duration
      first. */
  function ExpirationKey(p: Package): int { p.expirationInDays }

  /** The reserved packages in the order they are drawn on. */
  function DrawOrder(packs: UserPackages): (r: seq<Package>)
    ensures Sorting.SortedBy(r, ExpirationKey)
    ensures multiset(r) == multiset(packs.reserved)
    ensures |r| == |packs.reserved|
    ensures forall p :: p in r <==> p in packs.reserved
  {
    var r := Sorting.SortBy(packs.reserved, ExpirationKey);
    Sorting.SortedMembers(packs.reserved, r);
    r
  }

  /** The overage path's first debit: the active package is charged what it
      had left, split in proportion to the download and upload totals. The
      upload total is summed from the download counters, as in the code, so
      both totals are equal and the split is even. */
  function FirstDebit(conns: seq<Connection>, active: Package, remaining: int, nonFinite: int): (r: Action)
    ensures r.Debit? && r.packageId == active.id && r.download == r.upload
  {
    var download := Util.Sum(conns, DownloadOf);
    var upload := Util.Sum(conns, DownloadOf);
    FirstDebitEven(conns, Util.Sum(conns, TrafficOf) + remaining, nonFinite);
    var (d, u) := SplitUsage(download, upload, Util.Sum(conns, TrafficOf) + remaining, nonFinite);
    Debit(active.id, d, u)
  }

  /** Equal totals split a charge evenly. */
  lemma FirstDebitEven(conns: seq<Connection>, charge: int, nonFinite: int)
    ensures var t := Util.Sum(conns, DownloadOf);
      var p := SplitUsage(t, t, charge, nonFinite);
      p.0 == p.1
  {
    var t := Util.Sum(conns, DownloadOf);
    if t + t != 0 {
      SplitHalves(t, charge, nonFinite);
    }
  }

  /** The reserved-package loop of the overage path, on the download and
      upload totals less the first debit's parts. */
  function DrawReserves(conns: seq<Connection>, packs: UserPackages, remaining: int, first: Action,
                        nonFinite: int, faults: Faults): (r: CascadeResult)
    requires first.Debit? && first.download == first.upload
    ensures r == Cascade(DrawOrder(packs), Abs(remaining), Util.Sum(conns, DownloadOf) - first.download,
                         Util.Sum(conns, DownloadOf) - first.download, nonFinite, faults)
  {
    var download := Util.Sum(conns, DownloadOf) - first.download;
    var upload := Util.Sum(conns, DownloadOf) - first.upload;
    assert upload == download;
    Cascade(DrawOrder(packs), Abs(remaining), download, upload, nonFinite, faults)
  }

  /** The overage path, for a user whose active package has id 0 and not
      enough traffic left. `remaining` is that package's remaining traffic
      after the new usage, a negative number. The active package is debited
      what it had left, the reserved packages are drawn on for the rest,
      and the user is disconnected when there are none or they do not cover
      it. */
  function ChargeOverage(username: string, conns: seq<Connection>, packs: UserPackages, remaining: int,
                         cutoff: Time, nonFinite: int, faults: Faults): (r: Run)
  {
    var first := FirstDebit(conns, packs.active, remaining, nonFinite);
    if packs.active.id in faults.debitFails then Run([first], Some(faults.debitFails[packs.active.id]))
    else if |packs.reserved| <= 0 then Run([first] + DisconnectUserTrace(username, conns, faults), None)
    else Assemble(first, DrawReserves(conns, packs, remaining, first, nonFinite, faults),
                  DisconnectUserTrace(username, conns, faults), Finalize(conns, cutoff))
  }

  /** The run of the overage path that draws on reserved packages: the
      first debit and the reserved-package loop `c`, then, unless the loop
      aborted, the disconnection `dt` when traffic is still unaccounted for
      or the finalisation `fin` when it is not. */
  function Assemble(first: Action, c: CascadeResult, dt: seq<Action>, fin: seq<Action>): Run {
    if c.error.Some? then Run([first] + c.trace, c.error)
    else if c.remaining > 0 then Run([first] + c.trace + dt, None)
    else Run([first] + c.trace + fin, None)
  }

  /** The reserved-package loop's debits, with equal totals, have the trace
      properties. */
  lemma CascadeWithin(packs: UserPackages, remaining: int, total: int, nonFinite: int, faults: Faults,
                      conns: seq<Connection>, names: set<string>)
    ensures var t := Cascade(DrawOrder(packs), remaining, total, total, nonFinite, faults).trace;
      EvenDebits(t) && DebitsWithin(t, packs) && MarksWithin(t, conns) && NamesWithin(t, names)
  {
    var order := DrawOrder(packs);
    var c := Cascade(order, remaining, total, total, nonFinite, faults);
    CascadeEqualParts(order, remaining, total, nonFinite, faults);
    assert EvenDebits(c.trace);
    forall i | 0 <= i < |c.trace| && c.trace[i].Debit?
      ensures exists p :: p in packs.reserved && p.id == c.trace[i].packageId
    {
      assert order[i] in packs.reserved;
    }
    assert DebitsWithin(c.trace, packs);
    assert forall i :: 0 <= i < |c.trace| ==> c.trace[i].Debit?;
  }

  /** The overage path keeps the trace properties. */
  lemma ChargeOverageWithin(username: string, conns: seq<Connection>, packs: UserPackages, remaining: int,
                            cutoff: Time, nonFinite: int, faults: Faults)
    ensures var r := ChargeOverage(username, conns, packs, remaining, cutoff, nonFinite, faults);
      && |r.trace| > 0 && r.trace[0].Debit? && r.trace[0].packageId == packs.active.id
      && EvenDebits(r.trace) && DebitsWithin(r.trace, packs) && MarksWithin(r.trace, conns)
      && NamesWithin(r.trace, {username})
  {
    var first := FirstDebit(conns, packs.active, remaining, nonFinite);
    assert EvenDebits([first]) && DebitsWithin([first], packs) && MarksWithin([first], conns) && NamesWithin([first], {username});
    if packs.active.id !in faults.debitFails {
      var dt := DisconnectUserTrace(username, conns, faults);
      DisconnectUserTraceWithin(username, conns, packs, faults);
      if |packs.reserved| <= 0 {
        TraceAppend([first], dt, packs, conns, {username});
      } else {
        ReservesWithin(username, conns, packs, remaining, cutoff, nonFinite, faults);
      }
    }
  }

  /** The overage path that draws on reserved packages: the first debit,
      the reserved-package loop, and then, unless the loop aborted, the
      disconnection when traffic is still unaccounted for or the
      finalisation when it is not. */
  lemma ReservesShape(username: string, conns: seq<Connection>, packs: UserPackages, remaining: int,
                      cutoff: Time, nonFinite: int, faults: Faults)
    requires packs.active.id !in faults.debitFails && |packs.reserved| > 0
    ensures var first := FirstDebit(conns, packs.active, remaining, nonFinite);
      var c := DrawReserves(conns, packs, remaining, first, nonFinite, faults);
      var r := ChargeOverage(username, conns, packs, remaining, cutoff, nonFinite, faults);
      && r.error == c.error
      && (c.error.Some? ==> r.trace == [first] + c.trace)
      && (c.error.None? ==>
            r.trace == [first] + c.trace +
                       (if c.remaining > 0 then DisconnectUserTrace(username, conns, faults) else Finalize(conns, cutoff)))
  {
  }

  /** The overage path that draws on reserved packages keeps the trace
      properties. */
  lemma ReservesWithin(username: string, conns: seq<Connection>, packs: UserPackages, remaining: int,
                       cutoff: Time, nonFinite: int, faults: Faults)
    requires packs.active.id !in faults.debitFails && |packs.reserved| > 0
    ensures var r := ChargeOverage(username, conns, packs, remaining, cutoff, nonFinite, faults);
      EvenDebits(r.trace) && DebitsWithin(r.trace, packs) && MarksWithin(r.trace, conns) && NamesWithin(r.trace, {username})
  {
    var first := FirstDebit(conns, packs.active, remaining, nonFinite);
    var c := DrawReserves(conns, packs, remaining, first, nonFinite, faults);
    DrawWithin(username, conns, packs, remaining, first, nonFinite, faults);
    ReservesShape(username, conns, packs, remaining, cutoff, nonFinite, faults);
    if c.error.None? {
      var tail := if c.remaining > 0 then DisconnectUserTrace(username, conns, faults) else Finalize(conns, cutoff);
      DisconnectUserTraceWithin(username, conns, packs, faults);
      FinalizeWithin(conns, cutoff, packs, {username});
      TraceAppend([first] + c.trace, tail, packs, conns, {username});
    }
  }

  /** The first debit and the reserved-package loop after it keep the trace
      properties. */
  lemma DrawWithin(username: string, conns: seq<Connection>, packs: UserPackages, remaining: int,
                   first: Action, nonFinite: int, faults: Faults)
    requires first == FirstDebit(conns, packs.active, remaining, nonFinite)
    ensures var t := [first] + DrawReserves(conns, packs, remaining, first, nonFinite, faults).trace;
      EvenDebits(t) && DebitsWithin(t, packs) && MarksWithin(t, conns) && NamesWithin(t, {username})
  {
    assert EvenDebits([first]) && DebitsWithin([first], packs) && MarksWithin([first], conns) && NamesWithin([first], {username});
    var total := Util.Sum(conns, DownloadOf) - first.download;
    var t := Cascade(DrawOrder(packs), Abs(remaining), total, total, nonFinite, faults).trace;
    assert DrawReserves(conns, packs, remaining, first, nonFinite, faults).trace == t;
    CascadeWithin(packs, Abs(remaining), total, nonFinite, faults, conns, {username});
    TraceAppend([first], t, packs, conns, {username});
  }

  /** Calls without a debit appended to a run without an error keep it
      stopping exactly at failing debits. */
  lemma StopsAppendQuiet(r: Run, tail: seq<Action>, faults: Faults)
    requires r.error.None? && StopsAtFailingDebit(r, faults)
    requires forall a :: a in tail ==> !a.Debit?
    ensures StopsAtFailingDebit(Run(r.trace + tail, None), faults)
  {
    var t := r.trace + tail;
    assert forall i :: |r.trace| <= i < |t| ==> t[i] == tail[i - |r.trace|];
  }

  /** A succeeding debit followed by a stretch of debits that stops
      exactly at a failing debit stops exactly at a failing debit. */
  lemma StopsAfterDebit(first: Action, c: CascadeResult, faults: Faults)
    requires first.Debit? && first.packageId !in faults.debitFails
    requires forall i :: 0 <= i < |c.trace| ==> c.trace[i].Debit?
    requires StopsAtFailingDebit(Run(c.trace, c.error), faults)
    ensures StopsAtFailingDebit(Run([first] + c.trace, c.error), faults)
  {
    var t := [first] + c.trace;
    if c.error.Some? {
      assert t[|t| - 1] == c.trace[|c.trace| - 1];
    } else {
      forall i | 0 <= i < |t| && t[i].Debit? ensures t[i].packageId !in faults.debitFails {
        if i > 0 { assert t[i] == c.trace[i - 1]; }
      }
    }
  }

  /** The reserved-package loop is a stretch of debits that stops exactly
      at a failing debit. */
  lemma CascadeStops(packs: seq<Package>, remaining: int, download: int, upload: int, nonFinite: int, faults: Faults)
    ensures var c := Cascade(packs, remaining, download, upload, nonFinite, faults);
      && (forall i :: 0 <= i < |c.trace| ==> c.trace[i].Debit?)
      && StopsAtFailingDebit(Run(c.trace, c.error), faults)
  {
  }

  /** The overage path ends with an error exactly at a failing debit. */
  lemma ChargeOverageStops(username: string, conns: seq<Connection>, packs: UserPackages, remaining: int,
                           cutoff: Time, nonFinite: int, faults: Faults)
    ensures StopsAtFailingDebit(ChargeOverage(username, conns, packs, remaining, cutoff, nonFinite, faults), faults)
  {
    var first := FirstDebit(conns, packs.active, remaining, nonFinite);
    if packs.active.id !in faults.debitFails {
      if |packs.reserved| <= 0 {
        StopsAppendQuiet(Run([first], None), DisconnectUserTrace(username, conns, faults), faults);
      } else {
        ReservesStop(username, conns, packs, remaining, cutoff, nonFinite, faults);
      }
    }
  }

  /** The overage path that draws on reserved packages ends with an error
      exactly at a failing debit. */
  lemma ReservesStop(username: string, conns: seq<Connection>, packs: UserPackages, remaining: int,
                     cutoff: Time, nonFinite: int, faults: Faults)
    requires packs.active.id !in faults.debitFails && |packs.reserved| > 0
    ensures StopsAtFailingDebit(ChargeOverage(username, conns, packs, remaining, cutoff, nonFinite, faults), faults)
  {
    var first := FirstDebit(conns, packs.active, remaining, nonFinite);
    var c := DrawReserves(conns, packs, remaining, first, nonFinite, faults);
    var total := Util.Sum(conns, DownloadOf) - first.download;
    assert c == Cascade(DrawOrder(packs), Abs(remaining), total, total, nonFinite, faults);
    CascadeStops(DrawOrder(packs), Abs(remaining), total, total, nonFinite, faults);
    ReservesShape(username, conns, packs, remaining, cutoff, nonFinite, faults);
    TailsCharge(username, conns, cutoff, faults);
    var tail := if c.remaining > 0 then DisconnectUserTrace(username, conns, faults) else Finalize(conns, cutoff);
    StopsAround(ChargeOverage(username, conns, packs, remaining, cutoff, nonFinite, faults), first, c, tail, faults);
  }

  /** A succeeding debit, a stretch of debits that stops exactly at a
      failing debit, and, when that stretch did not abort, calls without a
      debit: the whole stops exactly at a failing debit. */
  lemma StopsAround(r: Run, first: Action, c: CascadeResult, tail: seq<Action>, faults: Faults)
    requires first.Debit? && first.packageId !in faults.debitFails
    requires forall i :: 0 <= i < |c.trace| ==> c.trace[i].Debit?
    requires StopsAtFailingDebit(Run(c.trace, c.error), faults)
    requires forall a :: a in tail ==> !a.Debit?
    requires r.error == c.error
    requires c.error.Some? ==> r.trace == [first] + c.trace
    requires c.error.None? ==> r.trace == [first] + c.trace + tail
    ensures StopsAtFailingDebit(r, faults)
  {
    StopsAfterDebit(first, c, faults);
    if c.error.None? {
      StopsAppendQuiet(Run([first] + c.trace, None), tail, faults);
    }
  }

  /** The user is known, not banned, and has a package group: only such a
      user's usage is accounted for. */
  predicate Admitted(username: string, users: map<string, User>, packages: map<int, UserPackages>) {
    username in users && users[username].bannedAt.None? && users[username].id in packages
  }

  /** One iteration of the cycle's loop over users. A user who is unknown,
      banned or without packages is disconnected. Otherwise the
      connections' total usage is set against the active package: if
      traffic is left, the stale connections are finalised; if not, a user
      with a real active package is disconnected, and a user whose active
      package is the zero package (id 0) goes down the overage path. */
  function ProcessUser(username: string, conns: seq<Connection>, users: map<string, User>,
                       packages: map<int, UserPackages>, cutoff: Time, nonFinite: int, faults: Faults): (r: Run)
    ensures !Admitted(username, users, packages) ==> r == Run(DisconnectUserTrace(username, conns, faults), None)
    ensures (Admitted(username, users, packages) &&
             Remaining(packages[users[username].id].active, Util.Sum(conns, TrafficOf)) >= 0) ==>
      r == Run(Finalize(conns, cutoff), None)
    ensures (Admitted(username, users, packages) &&
             Remaining(packages[users[username].id].active, Util.Sum(conns, TrafficOf)) < 0 &&
             packages[users[username].id].active.id != 0) ==>
      r == Run(DisconnectUserTrace(username, conns, faults), None)
    ensures EvenDebits(r.trace) && MarksWithin(r.trace, conns) && NamesWithin(r.trace, {username})
    ensures StopsAtFailingDebit(r, faults)
    ensures Admitted(username, users, packages) ==> DebitsWithin(r.trace, packages[users[username].id])
    ensures r.error.Some? ==>
      Admitted(username, users, packages) && packages[users[username].id].active.id == 0 &&
      Remaining(packages[users[username].id].active, Util.Sum(conns, TrafficOf)) < 0
  {
    if !Admitted(username, users, packages) then
      QuietRun(DisconnectUserTrace(username, conns, faults), username, conns, NoPackages, faults);
      Run(DisconnectUserTrace(username, conns, faults), None)
    else
      var packs := packages[users[username].id];
      var remaining := Remaining(packs.active, Util.Sum(conns, TrafficOf));
      if remaining >= 0 then
        QuietRun(Finalize(conns, cutoff), username, conns, packs, faults);
        Run(Finalize(conns, cutoff), None)
      else if packs.active.id != 0 then
        QuietRun(DisconnectUserTrace(username, conns, faults), username, conns, packs, faults);
        Run(DisconnectUserTrace(username, conns, faults), None)
      else
        ChargeOverageWithin(username, conns, packs, remaining, cutoff, nonFinite, faults);
        ChargeOverageStops(username, conns, packs, remaining, cutoff, nonFinite, faults);
        ChargeOverage(username, conns, packs, remaining, cutoff, nonFinite, faults)
  }

  /** A run without debits that ends without an error, such as a
      disconnection or a finalisation, has the trace properties. */
  lemma QuietRun(t: seq<Action>, username: string, conns: seq<Connection>, packs: UserPackages, faults: Faults)
    requires forall a :: a in t ==> !a.Debit?
    requires MarksWithin(t, conns) && NamesWithin(t, {username})
    ensures EvenDebits(t) && DebitsWithin(t, packs) && MarksWithin(t, conns) && NamesWithin(t, {username})
    ensures StopsAtFailingDebit(Run(t, None), faults)
  {
    assert forall i :: 0 <= i < |t| ==> t[i] in t;
  }

  /** Calls that are not debits charge nothing. */
  lemma {:induction false} NoCharges(s: seq<Action>)
    requires forall a :: a in s ==> !a.Debit?
    ensures Util.Sum(s, ChargeOf) == 0
  {
    if |s| > 0 {
      Util.SumCons(s[0], s[1..], ChargeOf);
      assert s == [s[0]] + s[1..];
      NoCharges(s[1..]);
    }
  }

  /** The accounting of one user whose active package is the zero package,
      as the package store always reports it, and whose connections have
      downloaded something. Without usage nothing is charged. With usage,
      a user whose processing did not abort is never charged more than the
      usage, and a user who was not disconnected is charged all of it, but
      for at most one unit lost to truncation. */
  lemma OverageCharged(username: string, conns: seq<Connection>, users: map<string, User>,
                       packages: map<int, UserPackages>, cutoff: Time, nonFinite: int, faults: Faults)
    requires Admitted(username, users, packages) && packages[users[username].id].active == ZeroPackage
    requires Util.Sum(conns, DownloadOf) != 0
    ensures var r := ProcessUser(username, conns, users, packages, cutoff, nonFinite, faults);
      var usage := Util.Sum(conns, TrafficOf);
      && (usage <= 0 ==> Util.Sum(r.trace, ChargeOf) == 0)
      && (usage > 0 && r.error.None? ==> Util.Sum(r.trace, ChargeOf) <= usage)
      && (usage > 0 && r.error.None? && DisconnectUser(username) !in r.trace ==> usage - 1 <= Util.Sum(r.trace, ChargeOf))
  {
    var usage := Util.Sum(conns, TrafficOf);
    var packs := packages[users[username].id];
    RemainingOfZero(usage);
    if usage <= 0 {
      NoCharges(Finalize(conns, cutoff));
    } else {
      ZeroOverageRun(username, conns, users, packages, cutoff, nonFinite, faults);
      OverageShares(username, conns, packs, cutoff, nonFinite, faults);
    }
  }

  /** A user on the zero package with a positive usage goes down the
      overage path with the whole usage as the overage. */
  lemma ZeroOverageRun(username: string, conns: seq<Connection>, users: map<string, User>,
                       packages: map<int, UserPackages>, cutoff: Time, nonFinite: int, faults: Faults)
    requires Admitted(username, users, packages) && packages[users[username].id].active == ZeroPackage
    requires Util.Sum(conns, TrafficOf) > 0
    ensures ProcessUser(username, conns, users, packages, cutoff, nonFinite, faults) ==
      ChargeOverage(username, conns, packages[users[username].id], -Util.Sum(conns, TrafficOf), cutoff, nonFinite, faults)
  {
    RemainingOfZero(Util.Sum(conns, TrafficOf));
  }

  /** The overage path on the zero package, for a positive usage, in terms
      of charges. */
  lemma OverageShares(username: string, conns: seq<Connection>, packs: UserPackages,
                      cutoff: Time, nonFinite: int, faults: Faults)
    requires packs.active == ZeroPackage && Util.Sum(conns, DownloadOf) != 0 && Util.Sum(conns, TrafficOf) > 0
    ensures var usage := Util.Sum(conns, TrafficOf);
      var r := ChargeOverage(username, conns, packs, -usage, cutoff, nonFinite, faults);
      && (r.error.None? ==> Util.Sum(r.trace, ChargeOf) <= usage)
      && (r.error.None? && DisconnectUser(username) !in r.trace ==> usage - 1 <= Util.Sum(r.trace, ChargeOf))
  {
    var usage := Util.Sum(conns, TrafficOf);
    var first := FirstDebit(conns, packs.active, -usage, nonFinite);
    FirstDebitOfZero(conns, nonFinite);
    if 0 !in faults.debitFails {
      if |packs.reserved| <= 0 {
        var dt := DisconnectUserTrace(username, conns, faults);
        NoCharges(dt);
        Util.SumCons(first, dt, ChargeOf);
      } else {
        ReservesShares(username, conns, packs, cutoff, nonFinite, faults);
      }
    }
  }

  /** The disconnection starts by cutting the user's sessions and debits
      nothing; the finalisation only marks connections. */
  ghost predicate QuietTails(username: string, dt: seq<Action>, fin: seq<Action>) {
    && |dt| > 0 && dt[0] == DisconnectUser(username)
    && (forall a :: a in dt ==> !a.Debit?)
    && (forall a :: a in fin ==> a.MarkDisconnected?)
  }

  /** The overage path on the zero package that draws on reserved
      packages, in terms of charges. */
  lemma ReservesShares(username: string, conns: seq<Connection>, packs: UserPackages,
                       cutoff: Time, nonFinite: int, faults: Faults)
    requires packs.active == ZeroPackage && Util.Sum(conns, DownloadOf) != 0 && Util.Sum(conns, TrafficOf) > 0
    requires 0 !in faults.debitFails && |packs.reserved| > 0
    ensures var usage := Util.Sum(conns, TrafficOf);
      var r := ChargeOverage(username, conns, packs, -usage, cutoff, nonFinite, faults);
      && (r.error.None? ==> Util.Sum(r.trace, ChargeOf) <= usage)
      && (r.error.None? && DisconnectUser(username) !in r.trace ==> usage - 1 <= Util.Sum(r.trace, ChargeOf))
  {
    var usage := Util.Sum(conns, TrafficOf);
    var total := Util.Sum(conns, DownloadOf);
    var c := Cascade(DrawOrder(packs), usage, total, total, nonFinite, faults);
    ZeroReservesShape(username, conns, packs, cutoff, nonFinite, faults);
    CascadeAccounts(DrawOrder(packs), usage, total, nonFinite, faults);
    QuietTailsHold(username, conns, cutoff, faults);
    CascadeCharges(Debit(0, 0, 0), c, DisconnectUserTrace(username, conns, faults), Finalize(conns, cutoff), usage, username);
  }

  /** The overage path on the zero package that draws on reserved
      packages: a debit of nothing, then the reserved-package loop on the
      whole usage, then the disconnection or finalisation. */
  lemma ZeroReservesShape(username: string, conns: seq<Connection>, packs: UserPackages,
                          cutoff: Time, nonFinite: int, faults: Faults)
    requires packs.active == ZeroPackage && Util.Sum(conns, DownloadOf) != 0 && Util.Sum(conns, TrafficOf) > 0
    requires 0 !in faults.debitFails && |packs.reserved| > 0
    ensures var usage, total := Util.Sum(conns, TrafficOf), Util.Sum(conns, DownloadOf);
      ChargeOverage(username, conns, packs, -usage, cutoff, nonFinite, faults) ==
      Assemble(Debit(0, 0, 0), Cascade(DrawOrder(packs), usage, total, total, nonFinite, faults),
               DisconnectUserTrace(username, conns, faults), Finalize(conns, cutoff))
  {
    var usage := Util.Sum(conns, TrafficOf);
    FirstDebitOfZero(conns, nonFinite);
    DrawOfZero(conns, packs, nonFinite, faults);
    ReservesShape(username, conns, packs, -usage, cutoff, nonFinite, faults);
  }

  /** Neither the disconnection nor the finalisation debits anything; the
      disconnection starts by cutting the user's sessions. */
  lemma TailsCharge(username: string, conns: seq<Connection>, cutoff: Time, faults: Faults)
    ensures var dt := DisconnectUserTrace(username, conns, faults);
      |dt| > 0 && dt[0] == DisconnectUser(username) && forall a :: a in dt ==> !a.Debit?
    ensures forall a :: a in Finalize(conns, cutoff) ==> a.MarkDisconnected?
  {
  }

  /** The disconnection and the finalisation are quiet tails. */
  lemma QuietTailsHold(username: string, conns: seq<Connection>, cutoff: Time, faults: Faults)
    ensures QuietTails(username, DisconnectUserTrace(username, conns, faults), Finalize(conns, cutoff))
  {
    TailsCharge(username, conns, cutoff, faults);
  }

  /** On the zero package the reserved-package loop runs on the whole
      usage and the unreduced download totals. */
  lemma DrawOfZero(conns: seq<Connection>, packs: UserPackages, nonFinite: int, faults: Faults)
    requires Util.Sum(conns, DownloadOf) != 0 && Util.Sum(conns, TrafficOf) > 0
    ensures var usage, total := Util.Sum(conns, TrafficOf), Util.Sum(conns, DownloadOf);
      DrawReserves(conns, packs, -usage, Debit(0, 0, 0), nonFinite, faults) ==
      Cascade(DrawOrder(packs), usage, total, total, nonFinite, faults)
  {
  }

  /** On the zero package the first debit charges nothing. */
  lemma FirstDebitOfZero(conns: seq<Connection>, nonFinite: int)
    requires Util.Sum(conns, DownloadOf) != 0
    ensures FirstDebit(conns, ZeroPackage, -Util.Sum(conns, TrafficOf), nonFinite) == Debit(0, 0, 0)
  {
  }

  /** The charges of the overage path's tail: the zero package's debit, the
      reserved-package loop, and the disconnection or finalisation. */
  lemma CascadeCharges(first: Action, c: CascadeResult, dt: seq<Action>, fin: seq<Action>, usage: int,
                       username: string)
    requires ChargeOf(first) == 0
    requires QuietTails(username, dt, fin)
    requires Accounted(c, usage)
    ensures var r := Assemble(first, c, dt, fin);
      && (r.error.None? ==> Util.Sum(r.trace, ChargeOf) <= usage)
      && (r.error.None? && DisconnectUser(username) !in r.trace ==> usage - 1 <= Util.Sum(r.trace, ChargeOf))
  {
    if c.error.None? {
      var r := Assemble(first, c, dt, fin);
      var tail := if c.remaining > 0 then dt else fin;
      ChargesAround(first, c.trace, tail);
      assert c.remaining > 0 ==> r.trace[|[first] + c.trace|] == DisconnectUser(username);
    }
  }

  /** Only the middle of a run whose ends do not charge anything counts. */
  lemma ChargesAround(first: Action, mid: seq<Action>, tail: seq<Action>)
    requires ChargeOf(first) == 0 && forall a :: a in tail ==> !a.Debit?
    ensures Util.Sum([first] + mid + tail, ChargeOf) == Util.Sum(mid, ChargeOf)
  {
    NoCharges(tail);
    Util.SumAppend([first] + mid, tail, ChargeOf);
    Util.SumCons(first, mid, ChargeOf);
  }

  /** The users' calls one after the other, in the order `order`, as if no
      user's processing ended the cycle. */
  function Traces(order: seq<string>, groups: map<string, seq<Connection>>, users: map<string, User>,
                  packages: map<int, UserPackages>, cutoff: Time, nonFinite: int, faults: Faults): seq<Action>
    requires forall k :: k in order ==> k in groups
    decreases |order|
  {
    if |order| == 0 then []
    else ProcessUser(order[0], groups[order[0]], users, packages, cutoff, nonFinite, faults).trace +
         Traces(order[1..], groups, users, packages, cutoff, nonFinite, faults)
  }

  /** The loop over users, in the order `order` in which the grouping map
      is iterated. A user's run is followed by the next user's unless it
      ended with an error, which ends the cycle. */
  function ReconcileUsers(order: seq<string>, groups: map<string, seq<Connection>>, snapshot: seq<Connection>,
                          users: map<string, User>, packages: map<int, UserPackages>,
                          cutoff: Time, nonFinite: int, faults: Faults): (r: Run)
    requires forall k :: k in order ==> k in groups && forall c :: c in groups[k] ==> c in snapshot
    ensures StopsAtFailingDebit(r, faults)
    ensures EvenDebits(r.trace) && MarksWithin(r.trace, snapshot) && NamesWithin(r.trace, set k | k in order)
    ensures r.error.None? ==>
      forall k, a :: k in order && a in ProcessUser(k, groups[k], users, packages, cutoff, nonFinite, faults).trace ==>
        a in r.trace
    ensures forall a :: a in r.trace && (a.DisconnectUser? || a.LockUser?) ==>
      a.username in groups && a in ProcessUser(a.username, groups[a.username], users, packages, cutoff, nonFinite, faults).trace
    ensures r.error.None? <==>
      forall i :: 0 <= i < |order| ==> ProcessUser(order[i], groups[order[i]], users, packages, cutoff, nonFinite, faults).error.None?
    ensures r.error.None? ==> r.trace == Traces(order, groups, users, packages, cutoff, nonFinite, faults)
    decreases |order|
  {
    if |order| == 0 then Run([], None)
    else
      var k := order[0];
      var head := ProcessUser(k, groups[k], users, packages, cutoff, nonFinite, faults);
      assert forall a :: a in head.trace && (a.DisconnectUser? || a.LockUser?) ==> a.username == k;
      if head.error.Some? then
        assert MarksWithin(head.trace, snapshot) && NamesWithin(head.trace, set k | k in order);
        head
      else
        var rest := ReconcileUsers(order[1..], groups, snapshot, users, packages, cutoff, nonFinite, faults);
        UsersAppend(head, rest, order, snapshot, faults);
        Run(head.trace + rest.trace, rest.error)
  }

  /** When user `order[n]` is the first whose processing ends with an
      error, the cycle issues the calls of the users before it in order,
      then that user's calls, and ends with that user's error; no later
      user is processed. */
  lemma {:induction false} ReconcileUsersAborts(order: seq<string>, groups: map<string, seq<Connection>>,
                                                snapshot: seq<Connection>, users: map<string, User>,
                                                packages: map<int, UserPackages>, cutoff: Time, nonFinite: int,
                                                faults: Faults, n: int)
    requires forall k :: k in order ==> k in groups && forall c :: c in groups[k] ==> c in snapshot
    requires 0 <= n < |order|
    requires forall j :: 0 <= j < n ==> ProcessUser(order[j], groups[order[j]], users, packages, cutoff, nonFinite, faults).error.None?
    requires ProcessUser(order[n], groups[order[n]], users, packages, cutoff, nonFinite, faults).error.Some?
    ensures var failing := ProcessUser(order[n], groups[order[n]], users, packages, cutoff, nonFinite, faults);
      ReconcileUsers(order, groups, snapshot, users, packages, cutoff, nonFinite, faults) ==
      Run(Traces(order[..n], groups, users, packages, cutoff, nonFinite, faults) + failing.trace, failing.error)
    decreases n
  {
    if n == 0 {
      assert order[..0] == [];
    } else {
      var tail := order[1..];
      assert forall k :: k in tail ==> k in order;
      assert forall j :: 0 <= j < n - 1 ==> tail[j] == order[j + 1];
      ReconcileUsersAborts(tail, groups, snapshot, users, packages, cutoff, nonFinite, faults, n - 1);
      ReconcileStep(order, groups, snapshot, users, packages, cutoff, nonFinite, faults);
      PrefixTail(order, n);
      TracesStep(order[..n], groups, users, packages, cutoff, nonFinite, faults);
      var failing := ProcessUser(order[n], groups[order[n]], users, packages, cutoff, nonFinite, faults);
      assert tail[n - 1] == order[n];
      AbortsCompose(ReconcileUsers(order, groups, snapshot, users, packages, cutoff, nonFinite, faults),
                    ProcessUser(order[0], groups[order[0]], users, packages, cutoff, nonFinite, faults).trace,
                    ReconcileUsers(tail, groups, snapshot, users, packages, cutoff, nonFinite, faults),
                    Traces(order[..n], groups, users, packages, cutoff, nonFinite, faults),
                    Traces(tail[..n - 1], groups, users, packages, cutoff, nonFinite, faults), failing);
    }
  }

  /** A run without an error in front of a loop that aborted. */
  lemma AbortsCompose(r: Run, head: seq<Action>, rest: Run, prefix: seq<Action>, before: seq<Action>, failing: Run)
    requires r == Run(head + rest.trace, rest.error)
    requires rest == Run(before + failing.trace, failing.error)
    requires prefix == head + before
    ensures r == Run(prefix + failing.trace, failing.error)
  {
    assert head + (before + failing.trace) == (head + before) + failing.trace;
  }

  /** Dropping the first element of a prefix is taking the prefix of the
      rest. */
  lemma PrefixTail<T>(s: seq<T>, n: int)
    requires 0 < n <= |s|
    ensures s[..n][1..] == s[1..][..n - 1] && s[..n][0] == s[0]
  {
  }

  /** A user whose processing ends without an error is followed by the rest
      of the loop. */
  lemma ReconcileStep(order: seq<string>, groups: map<string, seq<Connection>>, snapshot: seq<Connection>,
                      users: map<string, User>, packages: map<int, UserPackages>, cutoff: Time, nonFinite: int,
                      faults: Faults)
    requires forall k :: k in order ==> k in groups && forall c :: c in groups[k] ==> c in snapshot
    requires |order| > 0
    requires ProcessUser(order[0], groups[order[0]], users, packages, cutoff, nonFinite, faults).error.None?
    ensures var rest := ReconcileUsers(order[1..], groups, snapshot, users, packages, cutoff, nonFinite, faults);
      ReconcileUsers(order, groups, snapshot, users, packages, cutoff, nonFinite, faults) ==
      Run(ProcessUser(order[0], groups[order[0]], users, packages, cutoff, nonFinite, faults).trace + rest.trace,
          rest.error)
  {
  }

  /** The users' calls are the first user's followed by the others'. */
  lemma TracesStep(order: seq<string>, groups: map<string, seq<Connection>>, users: map<string, User>,
                   packages: map<int, UserPackages>, cutoff: Time, nonFinite: int, faults: Faults)
    requires forall k :: k in order ==> k in groups
    requires |order| > 0
    ensures Traces(order, groups, users, packages, cutoff, nonFinite, faults) ==
      ProcessUser(order[0], groups[order[0]], users, packages, cutoff, nonFinite, faults).trace +
      Traces(order[1..], groups, users, packages, cutoff, nonFinite, faults)
  {
  }

  /** A user's run without an error followed by the rest of the loop keeps
      the loop's properties. */
  lemma UsersAppend(head: Run, rest: Run, order: seq<string>, snapshot: seq<Connection>, faults: Faults)
    requires |order| > 0 && head.error.None?
    requires StopsAtFailingDebit(head, faults) && StopsAtFailingDebit(rest, faults)
    requires EvenDebits(head.trace) && MarksWithin(head.trace, snapshot) && NamesWithin(head.trace, {order[0]})
    requires EvenDebits(rest.trace) && MarksWithin(rest.trace, snapshot) && NamesWithin(rest.trace, set k | k in order[1..])
    ensures var r := Run(head.trace + rest.trace, rest.error);
      StopsAtFailingDebit(r, faults) && EvenDebits(r.trace) && MarksWithin(r.trace, snapshot) &&
      NamesWithin(r.trace, set k | k in order)
  {
    var t := head.trace + rest.trace;
    assert forall i :: 0 <= i < |head.trace| ==> t[i] == head.trace[i];
    assert forall i :: |head.trace| <= i < |t| ==> t[i] == rest.trace[i - |head.trace|];
    assert forall k :: k in order[1..] ==> k in order;
  }

  /** ManageActiveConnections: the connected sessions, the users they name
      and those users' packages are read, each read's error ending the
      cycle before anything is changed; the sessions are grouped by
      username and each group processed in the grouping map's iteration
      order `order`. */
  function ManageActiveConnections(conns: Result<seq<Connection>>, users: Result<seq<User>>,
                                   packages: Result<seq<UserPackages>>, order: seq<string>,
                                   cutoff: Time, nonFinite: int, faults: Faults): (r: Run)
    requires conns.Ok? ==> Util.IsEnumeration(order, Util.MapElementsBy(conns.value, UsernameOf).Keys)
    ensures conns.Err? ==> r == Run([], Some(conns.error))
    ensures conns.Ok? && users.Err? ==> r == Run([], Some(users.error))
    ensures conns.Ok? && users.Ok? && packages.Err? ==> r == Run([], Some(packages.error))
    ensures conns.Ok? && users.Ok? && packages.Ok? ==>
      && StopsAtFailingDebit(r, faults) && EvenDebits(r.trace) && MarksWithin(r.trace, conns.value)
      && NamesWithin(r.trace, set c | c in conns.value :: c.username)
  {
    if conns.Err? then Run([], Some(conns.error))
    else if users.Err? then Run([], Some(users.error))
    else if packages.Err? then Run([], Some(packages.error))
    else
      var groups := Util.MapElementsBy(conns.value, UsernameOf);
      var usersMap := Util.MapUniqueElementsBy(users.value, UserName);
      var packagesMap := Util.MapUniqueElementsBy(packages.value, GroupOwner);
      GroupsWithin(conns.value, order);
      var r := ReconcileUsers(order, groups, conns.value, usersMap, packagesMap, cutoff, nonFinite, faults);
      assert (set k | k in order) == set c | c in conns.value :: c.username;
      r
  }

  /** Every group is keyed by a username of the snapshot and holds only
      the snapshot's connections. */
  lemma GroupsWithin(conns: seq<Connection>, order: seq<string>)
    requires Util.IsEnumeration(order, Util.MapElementsBy(conns, UsernameOf).Keys)
    ensures var groups := Util.MapElementsBy(conns, UsernameOf);
      forall k :: k in order ==> k in groups && forall c :: c in groups[k] ==> c in conns
    ensures (set k | k in order) == set c | c in conns :: c.username
  {
    var groups := Util.MapElementsBy(conns, UsernameOf);
    forall k ensures k in order <==> exists c :: c in conns && c.username == k {
      if k in order {
        var i :| 0 <= i < |conns| && UsernameOf(conns[i]) == k;
        assert conns[i] in conns;
      }
      if exists c :: c in conns && c.username == k {
        var c :| c in conns && c.username == k;
        var i :| 0 <= i < |conns| && conns[i] == c;
        assert UsernameOf(conns[i]) == k;
      }
    }
  }

  /** A user who is unknown, banned or without packages is disconnected
      by a loop that ends without an error. */
  lemma {:induction false} RefusedDisconnected(k: string, order: seq<string>, groups: map<string, seq<Connection>>,
                                               snapshot: seq<Connection>, users: map<string, User>,
                                               packages: map<int, UserPackages>, cutoff: Time, nonFinite: int,
                                               faults: Faults)
    requires forall k :: k in order ==> k in groups && forall c :: c in groups[k] ==> c in snapshot
    requires k in order && !Admitted(k, users, packages)
    ensures var r := ReconcileUsers(order, groups, snapshot, users, packages, cutoff, nonFinite, faults);
      r.error.None? ==> DisconnectUser(k) in r.trace
  {
    var t := ProcessUser(k, groups[k], users, packages, cutoff, nonFinite, faults).trace;
    assert t[0] in t;
  }

  /** A user whose active package still has traffic left after the group's
      usage is never disconnected by the loop. */
  lemma {:induction false} SolventKept(k: string, order: seq<string>, groups: map<string, seq<Connection>>,
                                       snapshot: seq<Connection>, users: map<string, User>,
                                       packages: map<int, UserPackages>, cutoff: Time, nonFinite: int,
                                       faults: Faults)
    requires forall k :: k in order ==> k in groups && forall c :: c in groups[k] ==> c in snapshot
    requires k in order && Admitted(k, users, packages)
    requires Remaining(packages[users[k].id].active, Util.Sum(groups[k], TrafficOf)) >= 0
    ensures DisconnectUser(k) !in ReconcileUsers(order, groups, snapshot, users, packages, cutoff, nonFinite, faults).trace
  {
    assert forall a :: a in Finalize(groups[k], cutoff) ==> a.MarkDisconnected?;
  }

  /** Over a completed cycle: every user who is unknown, banned or without
      packages is disconnected, and no user whose active package still has
      traffic left is. */
  lemma {:induction false} DisconnectsExactlyTheOverdrawn(conns: seq<Connection>, users: seq<User>, packages: seq<UserPackages>,
                                                          order: seq<string>, cutoff: Time, nonFinite: int, faults: Faults)
    requires Util.IsEnumeration(order, Util.MapElementsBy(conns, UsernameOf).Keys)
    ensures var usersMap := Util.MapUniqueElementsBy(users, UserName);
      var packagesMap := Util.MapUniqueElementsBy(packages, GroupOwner);
      var r := ManageActiveConnections(Ok(conns), Ok(users), Ok(packages), order, cutoff, nonFinite, faults);
      && (r.error.None? ==>
            forall k :: k in order && !Admitted(k, usersMap, packagesMap) ==> DisconnectUser(k) in r.trace)
      && (forall k :: (k in order && Admitted(k, usersMap, packagesMap) &&
                       Remaining(packagesMap[usersMap[k].id].active, Util.Sum(Util.Filter(conns, UsernameOf, k), TrafficOf)) >= 0) ==>
            DisconnectUser(k) !in r.trace)
  {
    var usersMap := Util.MapUniqueElementsBy(users, UserName);
    var packagesMap := Util.MapUniqueElementsBy(packages, GroupOwner);
    var groups := Util.MapElementsBy(conns, UsernameOf);
    GroupsWithin(conns, order);
    var r := ManageActiveConnections(Ok(conns), Ok(users), Ok(packages), order, cutoff, nonFinite, faults);
    assert r == ReconcileUsers(order, groups, conns, usersMap, packagesMap, cutoff, nonFinite, faults);
    forall k | k in order && !Admitted(k, usersMap, packagesMap) && r.error.None?
      ensures DisconnectUser(k) in r.trace
    {
      RefusedDisconnected(k, order, groups, conns, usersMap, packagesMap, cutoff, nonFinite, faults);
    }
    forall k | k in order && Admitted(k, usersMap, packagesMap) &&
        Remaining(packagesMap[usersMap[k].id].active, Util.Sum(Util.Filter(conns, UsernameOf, k), TrafficOf)) >= 0
      ensures DisconnectUser(k) !in r.trace
    {
      assert groups[k] == Util.Filter(conns, UsernameOf, k);
      SolventKept(k, order, groups, conns, usersMap, packagesMap, cutoff, nonFinite, faults);
    }
  }
}
