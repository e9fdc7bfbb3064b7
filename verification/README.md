# Jupiter traffic-quota engine, modelled in Dafny

Jupiter sits beside an ocserv VPN server and enforces traffic quotas. On every
tick of its manager loop it does three things:

- It lists the server's live sessions and converts them to connection records.
- It upserts those records into the connection table. The key is the
  server's session id, stored as the external id.
- It reconciles. The connected rows are grouped by username and the users and
  their usable packages are read. Each user's usage is then set against their
  active package.
  - A user who is unknown, banned or without packages is disconnected and
    locked on the VPN server.
  - A user whose real active package is used up is disconnected too.
  - A user whose active package is the zero package (id 0) goes down the
    overage path. Usage is charged to the reserved packages, shortest
    duration first, and the user is disconnected only when those run out.
  - Connections not refreshed since the cycle's cutoff are marked
    disconnected.

Around that core sit the three stores and the services built on them:

- connections: upsert, active listings, disconnect, system status;
- packages: batch and single-user quota queries, purchase with its activation
  rule, traffic debits, listings;
- users: lookups, ban and unban, statistics, listings;
- services: user creation with a trial package, password change, ban and
  unban through the VPN account, package listing with owner names.

The helpers are modelled too: pagination, grouping maps, sums, the byte
formatter, integer text conversion, and the proportional download/upload
split.

The model is pure. Tables are sequences of rows and each store call is a
function from table to result. Each failure a call can report is a fault
parameter (`Option<Error>`). Calls to the VPN server and the reconciliation's
writes are recorded as traces of actions. Go map iteration order is a
parameter constrained to enumerate the map's keys. Clock readings, the time
parser, generated passwords and the status a connection insert stores are
parameters too.

Modules, one per source file or concern:

- `Wrappers`, `Model`: results, errors, records.
- `Util`, `Slices`, `Sorting`, `Scopes`, `Decimal`, `Bytes`, `Split`: helpers.
- `ConnectionModel`, `PackageModel`: row conversions.
- `ConnectionStore`, `PackageStore`, `UserStore`: repositories.
- `Reconcile`, `ConnectionService`, `PackageService`, `UserService`: services.
- `Manager`: the manager loop.

## Model

| member | source | states |
|---|---|---|
| Wrappers.InternalError | internal/errorext/error.go:30-38 | The wrapped error is internal and carries the original error's message. |
| Util.MapElementsBy | internal/util/map.go:3-11 | A key is in the map exactly when some element carries it, and its group is exactly the elements with that key, in input order. |
| Util.GroupsPartitionInput | internal/util/map.go:3-11 | Concatenating the groups in any enumeration of the keys gives back the input as a multiset: no element is lost or duplicated. |
| Util.MapUniqueElementsBy | internal/util/map.go:13-21 | A key is in the map exactly when some element carries it, and it maps to the last element carrying it. |
| Util.MapKeys | internal/util/map.go:23-31 | The result lists every key of the map exactly once, in some order. |
| Util.SumFunc | internal/util/slice.go:5-13 | The loop's accumulator equals the reference sum of `f` over the sequence; the empty sequence sums to 0. |
| Util.SumAppend | internal/util/slice.go:5-13 | The sum over a concatenation is the sum of the sums of its parts. |
| Util.SliceMap | internal/util/slice.go:15-23 | Same length, and element i of the result is `f` of element i. |
| Util.Filter | internal/util/map.go:3-11 | A group is no longer than the input and holds only input elements carrying its key. |
| Util.FilterHas | internal/util/map.go:3-11 | Every input element carrying the key is in its group. |
| Util.Select | internal/repository/connection.go:28-53 | A WHERE clause keeps exactly the rows that satisfy it. |
| Util.SelectIncreasing | internal/repository/connection.go:28-53 | Filtering keeps a strictly increasing key strictly increasing. |
| Slices.GetStructsField | pkg/util/slices.go:3-11 | Same length, and element i of the result is the field of element i. |
| Slices.MapSlice | pkg/util/slices.go:13-17 | Each slot is overwritten with `f` of its old value; the length is kept. |
| Slices.MapStructsByField | pkg/util/slices.go:19-27 | The keys are exactly the keys that occur, and each group holds its elements in input order. |
| Slices.MapStructsByUniqueField | pkg/util/slices.go:29-37 | The keys are exactly the keys that occur, and each maps to the last element carrying it. |
| Sorting.SortBy | internal/service/connection.go:151-153 | The result is in ascending key order and is a permutation of the input. |
| Sorting.SortedMembers | internal/service/connection.go:151-153 | A sorted copy holds exactly the input's elements. |
| Scopes.Normalize | internal/repository/scopes.go:11-17 | A page below 1 becomes 1, a size outside 1..100 becomes 100, and valid values are kept. |
| Scopes.NormalizeIdempotent | internal/repository/scopes.go:11-17 | Normalising twice is normalising once. |
| Scopes.CeilDiv | internal/repository/scopes.go:24-25 | The page count is the least number of pages whose total size covers the row count. |
| Scopes.Paginate | internal/repository/scopes.go:9-31 | The total is the row count and the page count covers it tightly (zero exactly when there are no rows). The window starts after the preceding full pages and is one page long. |
| Scopes.Page | internal/repository/scopes.go:27-29 | The page holds the input's elements from the offset on, at most `limit` of them, and fewer only at the end of the input. |
| Scopes.PageSorted | internal/repository/scopes.go:27-29 | Taking a page of a sorted listing keeps it sorted, and every row on the page comes from the listing. |
| Scopes.RowOnItsPage | internal/repository/scopes.go:9-31 | With a valid page size, the j-th row of page `pg` is the listing's row at offset `(pg - 1) * size + j`, whenever that row exists. |
| Scopes.ListedOnSomePage | internal/repository/scopes.go:9-31 | Partner of `Scopes.Page`: for any valid page size, every row of the listing shows up on some page, so paging loses nothing. |
| Decimal.ItoaIsDecimal | cmd/jupiter/main.go:188 | Itoa writes a well-formed decimal whose value is the integer written. |
| Decimal.AtoiWellFormed | cmd/jupiter/main.go:179-180 | Atoi returns the value of every well-formed decimal, clamped to the 64-bit range. |
| Decimal.AtoiItoa | cmd/jupiter/main.go:179-188 | Atoi undoes Itoa on every 64-bit integer. |
| Decimal.AtoiMalformed | cmd/jupiter/main.go:179-180 | Text that is not a well-formed decimal, and too short to overflow first, reads as 0 once the error is discarded. |
| Decimal.ItoaInjective | cmd/jupiter/main.go:188 | Distinct integers get distinct texts. |
| Decimal.ScanDigits | cmd/jupiter/main.go:179-180 | On a digit string the 64-bit scan yields the accumulated value, or a range error exactly when that value exceeds 2^64 - 1. |
| Decimal.NatToStringValue | cmd/jupiter/main.go:188 | Reading back the digits written for `n` gives `n`. |
| Bytes.ToHumanReadableBytes | pkg/util/bytes.go:8-40 | Below 1000 the raw count is printed. Strictly inside (KB, MB) the unit is KB, and strictly inside (MB, GB) it is MB. Exactly 1000, exactly 10^6 and anything from 10^9 up fall to GB. A whole count times the unit size is the value; a fraction is shown only when the value is not a multiple of the unit. |
| Bytes.BoundsShownAsGigabytes | pkg/util/bytes.go:15-39 | As written, a value from 1000 bytes up to a gigabyte is shown as one to a thousand of its unit except exactly 1000 and exactly 10^6, which are shown as a fraction of a gigabyte. |
| Bytes.ToHumanReadableBytesIntended | pkg/util/bytes.go:14-40 | Corrected: from 1000 bytes up every value is shown as at least one of its unit and, below GB, fewer than a thousand; it agrees with the code everywhere but at 1000 and 10^6. |
| Split.TruncDiv | internal/service/connection.go:277 | The quotient's magnitude is the magnitudes' quotient and its sign is the product of the signs: truncation toward zero. |
| Split.TruncDivScale | internal/service/connection.go:272-278 | Scaling both operands by a non-zero factor leaves the truncated quotient unchanged. |
| Split.Remaining | internal/service/connection.go:268-270 | What is left plus the new usage is the limit minus the usage already recorded. |
| Split.RemainingOfZero | internal/service/connection.go:122-124 | On the zero package what is left is minus the usage, so it is negative exactly when the usage is positive. |
| Split.SplitUsage | internal/service/connection.go:272-278 | Zero totals give the non-finite conversion value for both parts. A zero usage gives (0, 0). A zero download total gives the whole usage to upload, and vice versa. Otherwise a part's sign follows the share's sign times the usage's sign. |
| Split.SplitHalves | internal/service/connection.go:114-120 | With equal totals (the upload total is summed from download counters) each part is the usage halved and truncated. |
| Split.HalfBounds | internal/service/connection.go:272-278 | Halving a non-negative charge loses at most one unit; halving a negative one gives a non-positive part. |
| ConnectionModel.ToRow | internal/repository/connection_model.go:32-44 | The row written carries no id, status or stamps; the store assigns them. |
| ConnectionModel.ToConnection | internal/repository/connection_model.go:56-71 | The record read keeps the row's id, status and update stamp. |
| ConnectionModel.RoundTrip | internal/repository/connection_model.go:32-71 | Writing a record and reading it back loses exactly the id, the status and the update stamp. |
| ConnectionModel.ReportedFieldsSurvive | internal/repository/connection_model.go:32-71 | Reading a row and writing it back keeps everything the VPN server reports. |
| ConnectionModel.ToRows | internal/repository/connection_model.go:46-54 | Element-wise conversion, same length. |
| ConnectionModel.ToConnections | internal/repository/connection_model.go:73-81 | Element-wise conversion; every row's record is in the output and every record in the output comes from a row. |
| PackageModel.ToPackage | internal/repository/package_model.go:25-37 | Every column is copied except the trial flag, which reads false, and the owner's name, which is left empty. |
| PackageModel.OnlyTrialFlagLost | internal/repository/package_model.go:25-37 | Converting a row and rebuilding it gives back the row with the trial flag cleared. |
| PackageModel.ToPackages | internal/repository/package_model.go:39-47 | Element-wise conversion, same length. |
| UserStore.ToUser | internal/repository/user_model.go:24-35 | Every column but the deletion stamp is carried. |
| UserStore.ToUserLosesOnlyDeletedAt | internal/repository/user_model.go:24-35 | The row is recovered from its record and the deletion stamp alone. |
| UserStore.ToUsers | internal/repository/user_model.go:37-45 | Element-wise conversion, same length. |
| UserStore.GetUsersByUsernames | internal/repository/user.go:41-50 | Exactly the stored users whose name is listed, in table order; an empty list selects nobody. |
| UserStore.GetUsersByIDs | internal/repository/user.go:67-76 | Exactly the stored users whose id is listed, in table order. |
| UserStore.GetUserByID | internal/repository/user.go:52-65 | The first user with that id. With none, a fresh not-found error that carries the sentinel's text but is not the sentinel. |
| UserStore.GetUserByUsername | internal/repository/user.go:78-91 | The first user with exactly that name, or a fresh not-found error. |
| UserStore.GetUserByUsernameStored | internal/repository/user.go:78-91 | A user found by name is a stored row of that name. |
| UserStore.GetUserByIDUnique | internal/repository/user.go:52-65 | In a valid table the user found by an id is the one stored under it. |
| UserStore.GetUserByIDAgrees | internal/repository/user.go:52-65 | Tables that agree row by row on ids and names find the same user name for every id, and fail for the same ids. |
| UserStore.BanUser | internal/repository/user.go:93-95 | The user with that id is banned as of now; every other row and column is unchanged. |
| UserStore.UnbanUser | internal/repository/user.go:97-99 | The user with that id is no longer banned; every other row and column is unchanged. |
| UserStore.UnbanUndoesBan | internal/repository/user.go:93-99 | Ban then unban equals unban alone, and restores the table exactly for a user who was not banned. |
| UserStore.BanTwice | internal/repository/user.go:93-95 | Of two bans the later stamp wins. |
| UserStore.GetUsersStat | internal/repository/user.go:101-125 | The total, banned and active counts: active users are the distinct ids that own a package the quota queries accept now. |
| UserStore.ActiveUsersCounted | internal/repository/user.go:101-125 | With unique ids the distinct active count is a plain count of the qualifying users. |
| UserStore.GetTotalUsersCount | internal/repository/user.go:147-155 | The number of user rows, which in a valid table is the number of distinct users. |
| UserStore.TotalsAgree | internal/repository/user.go:101-155 | The statistics' total and the standalone count agree. |
| UserStore.UserRows | internal/repository/user.go:127-145 | The page returned is exactly the window the pagination picks from the filtered rows sorted newest first, and the totals are the pagination's own. |
| UserStore.GetAllUsers | internal/repository/user.go:127-145 | Users with exactly the given name (everyone when it is empty), newest first. The page is exactly the pagination's window over that sorted listing, with the pagination's totals. |
| UserStore.EveryUserListed | internal/repository/user.go:127-145 | Partner of the listing: every user the name filter keeps is returned on some page, whatever the page size. |
| PackageStore.BatchScan | internal/repository/package.go:49-53 | Exactly the listed users' packages with traffic left and not expired at `now`, in table order. |
| PackageStore.GroupScanSpec | internal/repository/package.go:58-70 | The grouping map has a group exactly for each user with a usable reserved package. The group holds exactly that user's reserved packages in scan order, and its active package is always the zero package: the write-back is skipped for dated packages. |
| PackageStore.GetUsersActiveAndReservedPackages | internal/repository/package.go:43-73 | One group per user with a usable undated package. Each group holds exactly that user's usable reserved packages, with the zero package as active. A user whose only usable package is dated gets no group. |
| PackageStore.CollectSpec | internal/repository/package.go:91-101 | The single-user loop makes the last dated package active and keeps the undated ones as reserved, in order. |
| PackageStore.BatchDropsActivePackage | internal/repository/package.go:58-70 | As written: for a user whose one usable package has a deadline, the batch grouping is empty while the single-user query makes that package active. |
| PackageStore.GroupScanIntendedCollects | internal/repository/package.go:58-70 | Corrected loop: a user has a group exactly when some scanned row is theirs, and the group is what the single-user loop makes of those rows. |
| PackageStore.BatchRowsOfUser | internal/repository/package.go:49-53 | A listed user's rows of the batch scan are exactly the single-user scan. |
| PackageStore.GetUsersActiveAndReservedPackagesIntended | internal/repository/package.go:43-73 | Corrected: exactly the listed users with a usable package get a group, and each group equals the single-user query's answer, active package included. |
| PackageStore.GetUserActiveAndReservedPackages | internal/repository/package.go:75-104 | Among the user's usable packages, the last dated one is active and the undated ones are reserved. With none, the result is empty with owner id 0. |
| PackageStore.GetUserActivePackage | internal/repository/package.go:106-115 | The first of the user's packages that has traffic left and an unexpired deadline, or record-not-found. |
| PackageStore.CreatePackage | internal/repository/package.go:20-41 | A failing active-package lookup other than not-found is returned, and so is a failing insert (the same fault parameter); either way nothing is stored. A stored package is one row appended after the existing ones, with the next id, the requested owner, limit and trial flag, no traffic used, and the creation stamp `now`. |
| PackageStore.CreatePackageActivation | internal/repository/package.go:29-38 | On a valid table a new package gets a deadline if and only if its owner already has an active package, so a first purchase is stored as a reserve. |
| PackageStore.UpdateTrafficUsage | internal/repository/package.go:117-129 | Both counters of the row with that id grow by the amounts; every other row is untouched. |
| PackageStore.UpdatesCompose | internal/repository/package.go:117-129 | Two debits of one row equal one debit of the sums. |
| PackageStore.UpdateOfMissingRow | internal/repository/package.go:117-129 | A debit naming no stored row, such as id 0 in a valid table, changes nothing. |
| PackageStore.PackageRows | internal/repository/package.go:131-148 | The page returned is exactly the window the pagination picks from the owner's rows sorted newest first, and the totals are the pagination's own. |
| PackageStore.GetPackages | internal/repository/package.go:131-148 | The packages of a positive user id (all packages otherwise), newest first. The page is exactly the pagination's window over that sorted listing, with the pagination's totals. |
| PackageStore.EveryPackageListed | internal/repository/package.go:131-148 | Partner of the listing: every package of the owner is returned on some page, whatever the page size. |
| ConnectionStore.UpsertConnections | internal/repository/connection.go:19-26 | An empty batch is refused, and a batch naming an external id twice too. Otherwise the table is exactly the reference merge: existing rows refreshed in place, new rows appended in batch order. |
| ConnectionStore.MergeAllIsMerged | internal/repository/connection.go:19-26 | The entry-by-entry merge equals the closed-form reference merge. |
| ConnectionStore.UpsertKeepsIdentity | internal/repository/connection.go:19-26 | An existing row keeps every column but its counters and update stamp, and a row the batch does not mention is untouched. |
| ConnectionStore.UpsertIdempotent | internal/repository/connection.go:19-26 | Upserting the same batch again changes nothing: counters are overwritten, not accumulated, and nothing is inserted twice. |
| ConnectionStore.UpsertKeepsValid | internal/repository/connection.go:19-26 | The upsert keeps ids positive, increasing and fresh, and external ids unique. |
| ConnectionStore.UpsertStampsBatch | internal/repository/connection.go:19-26 | Every row the batch names, refreshed or inserted, carries the upsert's update stamp. |
| ConnectionStore.NewRowsFound | internal/repository/connection.go:19-26 | Every batch entry the table lacks gets a new row. |
| ConnectionStore.NewRowsCarry | internal/repository/connection.go:19-26 | A new row holds the counters its batch entry reported. |
| ConnectionStore.NewRowsEntry | internal/repository/connection.go:19-26 | A new row has a batch entry's external id and username, and the status the insert stores. |
| ConnectionStore.UpsertedNeverActive | internal/repository/connection.go:19-26 | As written the insert stores the empty status: starting from a table without connected rows, after any upsert no row is connected, no active connection is listed, and the active count is 0. |
| ConnectionStore.UpsertedSessionsActive | internal/repository/connection.go:19-53 | Corrected, with the insert storing `connected`: every session the table did not hold is listed among its user's active connections right after the upsert. |
| ConnectionStore.GetActiveConnections | internal/repository/connection.go:28-53 | Only connected rows (of that user, when a name is given), newest connection first, each from a stored row. Without a page the whole sorted listing is returned; with a page, exactly the pagination's window over it, with the pagination's totals. |
| ConnectionStore.ActiveRows | internal/repository/connection.go:28-53 | The same filter, order, window and totals stated on rows. |
| ConnectionStore.EveryConnectionListed | internal/repository/connection.go:28-53 | Partner of the listing: every connected row the filter keeps is returned on some page, whatever the page size. |
| ConnectionStore.GetUserActiveConnections | internal/repository/connection.go:55-68 | Exactly the connected rows of that name, each from a stored row; an empty name is matched literally. |
| ConnectionStore.Disconnect | internal/repository/connection.go:70-81 | The row with that id is marked disconnected and stamped. Its counters are overwritten except where the new value is zero, and every other column and row is unchanged. |
| ConnectionStore.DisconnectIdempotent | internal/repository/connection.go:70-81 | Marking a row twice with the same counters equals marking it once. |
| ConnectionStore.DisconnectID | internal/repository/connection.go:83-96 | The row with that id is marked disconnected and its external id returned. With no such row nothing changes and the empty string is returned. |
| ConnectionStore.GetSystemStatus | internal/repository/connection.go:98-121 | The active count is the number of connected rows. The online count is the number of distinct usernames among them, never more than the active count. The download and upload totals sum every row whatever its status, and the user total is left 0. |
| ConnectionStore.SystemStatusSnoc | internal/repository/connection.go:98-121 | Partner of the aggregate: one more row adds its counters to both totals and adds one to the active count exactly when it is connected. |
| ConnectionStore.SystemStatusEmpty | internal/repository/connection.go:98-121 | An empty table has all-zero status, the base case the aggregate builds on. |
| ConnectionStore.DisconnectIDKeepsTotals | internal/repository/connection.go:98-121 | The traffic totals ignore statuses, so disconnecting by id leaves them unchanged. |
| Reconcile.Marks | internal/service/connection.go:223-233 | One Disconnect call per connection, each with that connection's counters. |
| Reconcile.MarksExactly | internal/service/connection.go:223-233 | Every mark belongs to one of the connections, and each connection has its mark. |
| Reconcile.DisconnectUserTrace | internal/service/connection.go:210-234 | Disconnect is always called first. Lock is called only if disconnect succeeded. The connections are marked, all of them, only if both calls succeed. No debit is made. |
| Reconcile.Finalize | internal/service/connection.go:192-204 | A connection is marked exactly when its update stamp is before the cutoff, with its own counters. The marks are the stale connections' marks, one each, in the group's order. |
| Reconcile.FinalizeAppend | internal/service/connection.go:192-204 | Partner of the loop: finalising two runs of connections one after the other gives the two runs' marks concatenated. |
| Reconcile.FinalizeOne | internal/service/connection.go:192-204 | One connection gets its mark exactly when its update stamp is before the cutoff. |
| Reconcile.Cascade | internal/service/connection.go:155-183 | One debit per visited reserved package, in order. The loop stops at the first failing debit and reports its error. A loop that ends early without an error has nothing left to charge. |
| Reconcile.CascadeStep | internal/service/connection.go:155-183 | A package whose limit exceeds what is left absorbs it and ends the loop. Otherwise it is charged the two truncated halves `h + h` of its limit, one unit less than the limit when the limit is odd, and the loop continues with what is left less that charge. |
| Reconcile.CascadeAccounts | internal/service/connection.go:155-183 | For equal totals and a non-negative overage, what is left never goes negative. The overage equals the charges plus what is left, give or take one unit lost to truncation. |
| Reconcile.CascadeEqualParts | internal/service/connection.go:114-120 | With equal totals every debit of the loop charges download and upload alike. |
| Reconcile.DrawOrder | internal/service/connection.go:151-153 | The reserved packages are drawn shortest duration first, each exactly once: the order is a permutation of the reserved packages. |
| Reconcile.FirstDebit | internal/service/connection.go:130-137 | The first overage debit is against the active package, with equal parts. |
| Reconcile.FirstDebitOfZero | internal/service/connection.go:130-137 | On the zero package the first debit charges nothing. |
| Reconcile.DrawReserves | internal/service/connection.go:142-158 | The loop runs on the absolute overage and on totals less the first debit's parts. |
| Reconcile.ChargeOverageWithin | internal/service/connection.go:130-190 | The overage path starts with a debit of the active package. Its debits hit only the user's packages, its marks are the user's connections, and its VPN calls name the user. |
| Reconcile.ChargeOverageStops | internal/service/connection.go:130-190 | The overage path ends with an error exactly at a failing debit, whose error it reports. |
| Reconcile.ProcessUser | internal/service/connection.go:89-204 | An unknown, banned or package-less user is disconnected. A user with traffic left has only stale connections finalised. A user whose real active package is used up is disconnected. Only the zero-package overage path can abort, and only at a failing debit. |
| Reconcile.NoCharges | internal/service/connection.go:210-234 | Calls other than debits charge nothing. |
| Reconcile.OverageCharged | internal/service/connection.go:122-190 | On the zero package: without usage nothing is charged. With usage and no abort, the charges never exceed the usage, and cover it but for one unit unless the user was disconnected. |
| Reconcile.ReconcileUsers | internal/service/connection.go:89-205 | Users are processed in the grouping map's iteration order `order`. The cycle has no error exactly when no user's processing fails, and then its trace is each user's calls concatenated in that order. |
| Reconcile.ReconcileUsersAborts | internal/service/connection.go:89-205 | When user `n` of the order is the first whose processing fails, the cycle's trace is the calls of the users before it, then that user's calls up to the failure, and its error is that failure. |
| Reconcile.ManageActiveConnections | internal/service/connection.go:57-208 | Each failing read is returned before any call. Otherwise the run stops exactly at a failing debit, every debit is even, every mark is a listed connection's, and every VPN call names a listed user. |
| Reconcile.GroupsWithin | internal/service/connection.go:65-69 | The grouping's keys are exactly the listed usernames, and each group holds only listed connections. |
| Reconcile.RefusedDisconnected | internal/service/connection.go:89-108 | In a loop without an error every unknown, banned or package-less user is disconnected. |
| Reconcile.SolventKept | internal/service/connection.go:122-128 | A user whose active package still has traffic left is never disconnected. |
| Reconcile.DisconnectsExactlyTheOverdrawn | internal/service/connection.go:57-208 | Over a completed cycle, every refused user is disconnected and no user with traffic left is. |
| ConnectionService.DisconnectID | internal/service/connection.go:236-243 | A store failure is returned before the VPN server is contacted. Otherwise exactly one VPN call is made, with the stored external id (the empty string when no row has that id), and the VPN error is returned. Other rows are untouched. |
| ConnectionService.DisconnectIDEndsSession | internal/service/connection.go:236-243 | Afterwards the connection is among nobody's active connections, whatever the VPN server answered. |
| ConnectionService.GetSystemStatus | internal/service/connection.go:253-266 | Either read's error is returned, the connection store's first. Otherwise the user total is the number of user rows, and the active count, online count and traffic totals are the connection table's aggregates. |
| ConnectionService.SystemStatusAgreesWithUsersStat | internal/service/connection.go:253-266 | The reported user total equals the statistics' total, and the number of distinct users on a valid table. |
| ConnectionService.ManageActiveConnections | internal/service/connection.go:57-88 | Run on the stores' own reads: each failing read ends the cycle before any call. A completed read keeps the trace properties over the connected rows. |
| ConnectionService.StoreGroupsHaveNoActive | internal/service/connection.go:78-87 | Every package group the store returns has the zero package as active. |
| ConnectionService.StoreCycleCharges | internal/service/connection.go:110-190 | Fed from the stores, every admitted user with traffic goes down the overage path with the charge bounds of `Reconcile.OverageCharged`. |
| PackageService.GetUserActivePackages | internal/service/package.go:40-69 | Not-found from the user lookup becomes user-not-found, and other failures become internal errors. No match is user-not-found and a banned first match is user-banned, all before the package store is read. Not-found from the package lookup becomes no-active-package. |
| PackageService.ActivePackagesByName | internal/service/package.go:40-69 | With the stores answering: an unknown name is user-not-found, a banned user is user-banned, and an unbanned user gets their own packages. |
| PackageService.FillPackagesUsernames | internal/service/package.go:98-130 | A failing owner lookup is returned. Otherwise the output holds exactly the listed packages whose owner was found, each renamed after that owner. The output is grouped by owner in the map's iteration order `order`, so the page's newest-first order is not kept; the contract states membership, not that order. |
| PackageService.AttachedExactly | internal/service/package.go:114-127 | A package is in the fill's output exactly when it is a listed package with a found owner, renamed. |
| PackageService.Listing | internal/service/package.go:71-96 | Each failure is returned in order. Once the owner is settled and no query fails, the listing succeeds with the package store's page totals. Every package returned is named after a stored user with its owner's id, and every queried package whose owner is stored comes back under such a name. |
| PackageService.FilledComplete | internal/service/package.go:98-122 | Partner of the soundness half of the fill: every queried package whose owner exists is in the fill's output, renamed after a stored user with that id. |
| PackageService.GetPackages | internal/service/package.go:71-96 | As written: only the not-found sentinel itself gives the empty listing, and any other lookup error is returned. Every package of a non-empty listing is named after a stored user with its owner's id. Without failures, a settled owner gets the package store's page totals and every queried package whose owner exists. |
| PackageService.GetPackagesUnknownUserFails | internal/service/package.go:72-80 | As written, naming a user who does not exist fails with the store's fresh not-found error. |
| PackageService.GetPackagesIntended | internal/service/package.go:71-96 | Corrected: the repository's not-found error also gives the empty listing. Otherwise it promises what `GetPackages` does. |
| PackageService.GetPackagesIntendedUnknownUserEmpty | internal/service/package.go:72-80 | Corrected, naming a user who does not exist returns the empty listing. |
| PackageService.CreatePackage | internal/service/package.go:132-142 | A failing buyer lookup is returned before the package store is touched. The request gets the buyer's id, and its traffic is turned from gigabytes into bytes. |
| PackageService.CreatePackageForKnownUser | internal/service/package.go:132-142 | Without failures, buying succeeds exactly for a user who exists. |
| UserService.TrialRequest | internal/service/user.go:65-76 | The trial request is a trial for the new user with the configured traffic. |
| UserService.CreateUser | internal/service/user.go:51-82 | A failing user insert becomes an internal error before any VPN call. Otherwise exactly one account is created. A VPN failure is returned as an internal error, and otherwise the user and password are returned. The package table changes only by the activated trial's stored package. |
| UserService.TrialIsReserved | internal/service/user.go:65-76 | The trial package is stored exactly when the trial is activated, and as an undated reserve for a new user. |
| UserService.ChangePassword | internal/service/user.go:84-101 | Not-found from the lookup becomes user-not-found and other failures internal errors, with no VPN call. Otherwise exactly one password call is made and its failure is returned as internal. |
| UserService.Lookup | internal/service/user.go:103-127 | A failing read is returned; otherwise the store's answer. |
| UserService.BanUser | internal/service/user.go:103-114 | Lookup, then lock, then write. The ban is written exactly when all three succeed, and any failure leaves the table as it was. |
| UserService.UnbanUser | internal/service/user.go:116-127 | Lookup, then unlock, then write. The ban is cleared exactly when all three succeed, and any failure leaves the table as it was. |
| UserService.UnbanUndoesBanUser | internal/service/user.go:103-127 | Ban then unban of an existing user locks and unlocks the same account and ends unbanned; a user who was not banned gets the table back exactly. |
| Manager.ToConnectionEntity | cmd/jupiter/main.go:178-199 | The external id is the session id's text. Download is the server's tx counter and upload its rx counter, as Atoi reads them. The stamp is the conversion's clock reading; no id or status is set. |
| Manager.CountersSurvive | cmd/jupiter/main.go:178-199 | Counters written as 64-bit decimals come through unchanged. |
| Manager.ToConnectionEntities | cmd/jupiter/main.go:201-213 | Element-wise conversion, each with its own clock reading. An empty listing gives the zero cutoff; otherwise the cutoff is the first record's stamp. |
| Manager.DistinctSessionsDistinctRecords | cmd/jupiter/main.go:188 | Distinct session ids give records with distinct external ids. |
| Manager.CutoffIsEarliest | cmd/jupiter/main.go:201-213 | With a clock that never runs backwards, the cutoff is no later than any record's stamp. |
| Manager.Upsert | cmd/jupiter/main.go:168-173 | Succeeds exactly for a non-empty batch of distinct external ids with no database failure; an empty batch is refused. |
| Manager.ManageConnections | cmd/jupiter/main.go:159-176 | A listing error or a refused upsert ends the cycle with that error and no calls. An empty listing is refused by the upsert. Otherwise the reconciliation runs on the upserted stores with the first record's stamp as cutoff. |
| Manager.IdleCycleFails | cmd/jupiter/main.go:163-173 | A server with nobody connected fails every cycle with the empty-batch error. |
| Manager.ListedSessionsStayOpen | cmd/jupiter/main.go:159-176 | A non-empty listing of distinct sessions is upserted. With monotone clocks, no connected row of a listed session is older than the cutoff, so the cycle never closes a live session. |
| Manager.Tick | cmd/jupiter/main.go:121-135 | Shutdown is attempted exactly when the counter equals the limit and the flag is set. A failed shutdown exits before the cycle runs. A failed cycle adds one to the counter, which nothing resets. |
| Manager.CounterCountsFailures | cmd/jupiter/main.go:121-135 | The counter never decreases and an exit is final; while the process lives the counter is exactly the number of failed cycles. |
| Manager.NoShutdownPastLimit | cmd/jupiter/main.go:123-129 | Once the counter is past the limit, shutdown is never attempted again. |
| Manager.AtMostOneShutdownWhileFailing | cmd/jupiter/main.go:121-135 | While every cycle fails, shutdown is attempted on at most one tick. |
| Manager.NoShutdownAfterExit | cmd/jupiter/main.go:125-127 | An exited process attempts nothing more. |
| Manager.ShutdownEveryTickAtLimit | cmd/jupiter/main.go:121-135 | While the counter sits at the limit and every cycle and shutdown succeeds, shutdown is attempted on every tick. |
| Manager.ZeroLimitShutsDownAtOnce | cmd/jupiter/main.go:123-126 | A zero limit with the flag set attempts shutdown on the first tick, before any failure. |

## Left out

- The ocserv client is not modelled: its subprocess, its output parsing and the network. Its calls appear as recorded VPN actions and its failures as fault parameters.
- SQL and gorm are not modelled: tables are sequences of rows, queries are filters, and the database's own failures are fault parameters. Soft deletion is not modelled beyond the deletion-stamp column.
- The HTTP handlers, the Telegram bot, the web panel and the admin service are outside the quota engine.
- Time is a parameter. Clock readings, `time.Parse` of the session's connect time (a `parse` function parameter), the ticker interval and the cycle's timeout are not modelled, and neither is concurrency.
- Randomness is a parameter: the generated VPN password and the database row the user insert returns (`created`).
- Go map iteration order is an explicit `order` parameter that enumerates the map's keys.
- `main`, `setupDB`, configuration loading and migrations are not modelled.
- Split.SplitUsage: floating-point shares are taken as exact rationals, so results can differ from the float computation on very large counters. The non-finite conversion value for zero totals is a parameter.
- Bytes.ToHumanReadableBytes: the `%.3f` digits of a fractional value are not modelled; only the unit choice and the whole-count text are. The whole-number test is done exactly on integers rather than on `float64`. The two agree up to 2^53 bytes (about 9·10^15). Above that, `float64(v)` rounds, and a value such as 10^16 + 1 passes Go's whole-number test and prints `10000000 GB`, while the model takes the fractional branch.
- PackageStore.GetUserActiveAndReservedPackages: the query has no ORDER BY, so the order in which rows come back is not fixed by the code. The model reads the table in row order. When a user has several usable dated packages, which one the loop leaves as active (the last one read) is therefore one of the possible answers, not the only one. The same holds for `PackageStore.Collect` and for the order of the reserved packages.
- UserStore.UserRows: the query orders only by `created_at desc`, which is not unique. The model breaks ties by table order with a stable sort. The database may order tied rows differently on each query, so the exact page is one of the possible answers.
- UserStore.GetAllUsers: the same tie order on `created_at desc` (internal/repository/user.go:136) is resolved by table order in the model, not by the database.
- UserStore.EveryUserListed: "every user is on some page" relies on the model's fixed tie order. With rows tied on `created_at`, the database may show a tied row on two pages or on none.
- UserStore.GetUsersByUsernames: the query has no ORDER BY; the model returns the rows in table order, one of the orders the database may use.
- UserStore.GetUsersByIDs: the query has no ORDER BY; the model returns the rows in table order, one of the orders the database may use.
- PackageStore.PackageRows: the query orders only by `created_at desc`, which is not unique. The model breaks ties by table order with a stable sort, so the exact page is one of the possible answers.
- PackageStore.GetPackages: the same tie order on `created_at desc` (internal/repository/package.go:140) is resolved by table order in the model; the service listing built on it inherits this.
- PackageStore.EveryPackageListed: "paging loses nothing" relies on the model's fixed tie order. With rows tied on `created_at`, the database may show a tied row on two pages or on none.
- PackageStore.BatchScan: the raw query has no ORDER BY; the model scans in table order, one of the orders the database may use.
- PackageStore.GetUsersActiveAndReservedPackages: each group's reserved list is in scan order, which the query does not fix; the model uses table order. The same holds for `PackageStore.GetUsersActiveAndReservedPackagesIntended`, including which dated package is active.
- ConnectionStore.ActiveRows: the query orders only by `connected_at desc`, which is not unique, and sessions can share a connect time. The model breaks ties by table order with a stable sort, so the exact order and page are one of the possible answers.
- ConnectionStore.GetActiveConnections: the same tie order on `connected_at desc` (internal/repository/connection.go:44) is resolved by table order in the model, not by the database.
- ConnectionStore.EveryConnectionListed: "every row is on some page" relies on the model's fixed tie order. With rows tied on `connected_at`, the database may show a tied row on two pages or on none.
- Scopes.Paginate: when the count query fails the scope returns nil instead of a paged query. That failure path is not modelled; the listings assume the count succeeds.
- PackageService.FillPackagesUsernames: the output order (owners' groups in the map's iteration order) is not stated; only which renamed packages are in the output is.
- PackageStore.UpdateTrafficUsage: the code issues the download and the upload increments as two separate column updates. A failure between them leaves the download debited and the upload not. The model applies both increments together as one step.
- UserService.TrialRequest: the trial traffic, a float number of gigabytes in the configuration, is taken as an integer number of bytes.
- 64-bit wrap-around of counters and sums is not modelled; integers are unbounded. Atoi's clamping to 64 bits is modelled.
- Reconcile.ManageActiveConnections: the calls a cycle makes (debits, disconnect marks, VPN calls) are recorded as a trace rather than applied to the stores. The store effect of each call is modelled on its own by `PackageStore.UpdateTrafficUsage` and `ConnectionStore.Disconnect`.
- Reconcile.DrawOrder: `slices.SortFunc` is not stable; the model sorts stably, so the order among reserved packages with equal durations is one of the orders the code may produce.
- ConnectionStore.UpsertConnections: the converted entry leaves its status empty and the insert writes that empty string explicitly (`InsertedStatus`), so no column default applies. The status is kept as a parameter only to stand for anything outside this code, such as a trigger, that might rewrite it; see "## Findings". The rows' creation stamps are the store's `now`.
- Manager.ToConnectionEntity: the listing's unused fields (the remote address, location, agent and host strings) are carried but nothing is proved about them.
- Manager.Tick: `logger.Fatal` ending the process is an `exited` flag; what happens afterwards is not modelled.

## Findings

| source | as written | input that shows it | evidently intended | confidence | as-written member | corrected member |
|---|---|---|---|---|---|---|
| internal/service/package.go:72-80 | An unknown username is meant to give an empty package listing, but the code tests the lookup error with `errors.Is(err, errorext.ErrUserNotFound)`. The repository returns a fresh `NewNotFoundError` (internal/repository/user.go:84), which is not that sentinel, so the request fails. | A listing request with `Username = "ghost"` against a user table that has no such name. | An unknown user gets the empty listing. | not executed | PackageService.GetPackagesUnknownUserFails | PackageService.GetPackagesIntendedUnknownUserEmpty |
| internal/repository/connection_model.go:32-44 | `toConnectionEntity` does not set `Status`, and `ConnectionEntity.Status` has no default tag, so the upsert's INSERT (internal/repository/connection.go:25) writes the empty string. No upserted session is ever `connected`, so the active listings (internal/repository/connection.go:34, 61), which the reconciliation reads, and the active count (internal/repository/connection.go:105) never see one. | A new table and one listed session: after the upsert, `GetActiveConnections` returns nothing. | New sessions are stored as `connected`. | not executed | ConnectionStore.UpsertedNeverActive | ConnectionStore.UpsertedSessionsActive |
| internal/repository/package.go:62-66 | For a package with a deadline the loop sets the active package on a local copy of the user's group and `continue`s before writing the copy back, so the batch reply never carries an active package, and a user whose only usable package has a deadline gets no group. The reconciliation then treats every user as having no active package. | A user whose one usable package has a deadline and traffic left. | The batch reply gives each user what the single-user query gives: the dated package as active. | not executed | PackageStore.BatchDropsActivePackage | PackageStore.GetUsersActiveAndReservedPackagesIntended |
| pkg/util/bytes.go:18-25 | The KB and MB cases test `v > KB` and `v > MB`, so exactly 1000 bytes and exactly 10^6 bytes fall to the default GB case and print as `0.000 GB` and `0.001 GB`. | `ToHumanReadableBytes(1000)` | 1000 bytes prints as `1 KB` and 10^6 bytes as `1 MB`. | not executed | Bytes.BoundsShownAsGigabytes | Bytes.ToHumanReadableBytesIntended |
