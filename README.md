# warp-vips-zlist reconciliation, modelled in Dafny

The worker keeps Cloudflare Zero Trust gateway lists in step with two datasets
kept in an R2 bucket: a device inventory (each WARP device's virtual IP, name,
type and owner email) and a group roster (user email to group). For every
configured group it joins the two datasets on email, filtered by the group,
finds the gateway lists named `prefix + group`, reads each list's items, and
sends one PATCH per list that removes every current value and appends every
desired entry (a full replace). The payload can also be stored in the bucket
as `prefix + group + ".json"`.

The model covers `handleRequest` from the dataset checks on:

- `types.dfy` (module `Types`): the records (devices, roster rows, gateway
  lists, list entries, the `{remove, append}` payload), the configuration, the
  inputs the run reads (`Stores`), and the outcome. Every external call becomes
  an `Event` in a trace: the directory read, an item read, a persist, a write.
- `resolver.dfy` (module `Resolver`): the join (`Resolve`). It also holds a
  reference definition: the cross product of the two datasets, filtered and
  mapped. Lemmas relate the two.
- `diff.dfy` (module `Diff`): the values taken from one item read (`RemoveValues`).
- `sync.dfy` (module `Sync`): the whole run as pure functions. `ScanLists`
  covers one group's pass over the directory, `RunGroups` the group loop, and
  `Handle` one invocation. `Closed` is a second definition of a group's calls
  that has no accumulator. Lemmas state the ordering, targeting, persist-gating,
  full-replace and accumulation properties.
- `handler.dfy` (module `Handler`): the handler as the worker runs it. Nested
  loops push into the payload and append calls to the trace. Each method is
  proved equal to the matching function of `Sync` or `Resolver`.
- `scenarios.dfy` (module `Scenarios`): small concrete runs.

The remote store is given as inputs. `Stores.directory` is the directory
reply; `None` means the read threw. `Stores.items` maps a list id to its item
reply: an absent id means the read threw, `None` means `result` was null.
Either exception ends the run, and the outcome `Aborted` keeps the calls made
before it. The payload object `ztListResult` is two local sequences. `append`
is filled first, and then `remove` grows as each matching list is read.

Two behaviours worth noting:
- The entry description is built from the roster row's email, not the
  device's. The two are equal for every matching pair.
- Every list whose name matches is read and written, not just one. The
  `remove` half is created once per group, so a later matching list's payload
  also removes the earlier lists' values (`Sync.ScanAccumulates`,
  `Scenarios.TwoListsAccumulate`).

## Model

| member | source | states |
|---|---|---|
| `Resolver.Matches` | src/index.js:88 | the join condition: equal emails and the roster row in the group. It has no contract of its own; `ResolveMembers`, `ResolveEmptyIffNoMatch` and `ResolveIgnoresOtherGroups` state what it selects |
| `Resolver.EntryOf` | src/index.js:89 | the entry built for one pair: value the device's VIP, description `USER:<row email>; DEVICE:<name>; TYPE:<type>`. It has no contract of its own; `ResolveMembers` and `Scenarios.OneMatchingPair` state it |
| `Resolver.Resolve` | src/index.js:86-92 | every appended entry carries the VIP of some device of the inventory; the full characterisation is in `ResolveMembers` and `ResolveIsFilteredCrossProduct` |
| `Resolver.EntriesFor` | src/index.js:87-91 | one device contributes no more entries than there are roster rows, and each of its entries has the device's VIP as value; `EntriesForIsSelectedRow` states that it is exactly one entry per matching row |
| `Resolver.ResolveMembers` | src/index.js:86-92 | an entry is in the group's append set iff some device and some roster row of that group share the email and the entry is built from them (value the VIP, description `USER:<email>; DEVICE:<name>; TYPE:<type>`) |
| `Resolver.ResolveHasPair` | src/index.js:86-89 | every device/row pair with equal emails and the row in the group has its entry in the append set |
| `Resolver.ResolveFromPair` | src/index.js:86-89 | every entry of the append set is built from some device/row pair with equal emails and the row in the group |
| `Resolver.ResolveIsFilteredCrossProduct` | src/index.js:86-92 | the append set is the cross product of devices and roster rows, filtered by the match condition and mapped to entries, in cross-product order: one entry per matching pair, no deduplication |
| `Resolver.CrossPairsAt` | src/index.js:86-87 | the cross product has `|devices| * |roster|` pairs and pair `(device i, row j)` sits at position `i * |roster| + j`: devices outer, roster rows inner |
| `Resolver.ResolveEmptyIffNoMatch` | src/index.js:88 | the append set is empty exactly when no device/row pair matches the email and group condition |
| `Resolver.ResolveIgnoresOtherGroups` | src/index.js:88 | dropping the roster rows of other groups leaves the append set unchanged, order included |
| `Resolver.DuplicateRowsDuplicateEntries` | src/index.js:86-92 | listing the roster twice doubles the multiplicity of every appended entry (duplicates are kept) |
| `Diff.Values` | src/index.js:110-112 | the values of a list's items have the same length as the items, and position k holds item k's value |
| `Diff.RemoveValues` | src/index.js:109-113 | a null `result` gives no value to remove; otherwise every item's value, in item order |
| `Diff.RemoveValuesEmpty` | src/index.js:109-113 | nothing is removed exactly when the result is null or holds no item |
| `Sync.PersistEnabled` | src/index.js:119 | payloads are persisted when `STORE_R2` is truthy or the run is the scheduled one. It has no contract of its own; `HandleTrace` states that no persist happens otherwise and that every write follows the persist of its payload when it holds, and `ScanTargeted` that a persist happens only when it holds |
| `Sync.Submit` | src/index.js:119-134 | the calls for one payload: the optional persist, then the write. It has no contract of its own; `ScanWellOrdered` states that a persist is followed at once by the write of the same payload, and `ScanPersistsWhenEnabled` that with persisting enabled every write is preceded at once by the persist of its payload |
| `Sync.TargetFor` | src/index.js:84-95 | what a group's scan needs: the list name `prefix + group` (line 95), the object name `prefix + group + ".json"` (line 120), the persist gate of line 119 and the append set `Resolve(devices, roster, group)` (lines 84-92). It has no contract of its own; `RunGroupsTargeted`, `HandleTrace` and `RunGroupsPersistsWhenEnabled` state these naming and gating facts through it |
| `Sync.ScanLists` | src/index.js:94-135 | an aborted group scan ends with the item read that failed; `ScanAccumulates`, `ScanAbortsAtFirstUnreadable` and `ScanAbortedIff` tie it to the reference definition `Closed` |
| `Sync.RunGroups` | src/index.js:82-137 | an aborted group loop ends with the item read that failed; `RunGroupsConcat`, `RunGroupsAbortedIff`, `RunGroupsTargeted` and `RunGroupsWellOrdered` state the rest |
| `Sync.Reply` | src/index.js:140-146 | the on-demand run replies `Gateway lists updated!` and the scheduled run replies nothing. It has no contract of its own; `HandleTrace` states it |
| `Sync.Handle` | src/index.js:46-146 | one invocation. It has no contract of its own; `MissingDatasetIs404`, `HandleAbortedIff`, `HandleAbortEndsAtFailedRead` and `HandleTrace` state its outcomes |
| `Sync.ScanAccumulates` | src/index.js:84-134 | when every read succeeds, a group's calls equal the reference definition: for the k-th list named `prefix + group`, a read, then a payload whose remove half holds the values of all matching lists up to k and whose append half is the whole desired set |
| `Sync.ScanBetween` | src/index.js:94-134 | scanning past matching lists that can be read moves the scan from one position to a later one while making exactly the reference calls of the lists in between |
| `Sync.ScanAfterStep` | src/index.js:94-134 | one list further: a non-matching list adds nothing, and a readable matching list adds its read and its payload with the accumulated remove half |
| `Sync.ScanAbortsAtFirstUnreadable` | src/index.js:98-107 | when the first unreadable list of the group's name is at position k, the group makes the reference calls for the lists before k, then the failed read, and the run stops |
| `Sync.ScanAbortedIff` | src/index.js:94-107 | a group's scan ends the run iff some list of the group's name cannot be read |
| `Sync.ScanSilentIffNoMatch` | src/index.js:94-95 | a group makes no call and raises no error iff no directory entry is named `prefix + group` |
| `Sync.SingleListFullReplace` | src/index.js:94-134 | with exactly one matching list, the group reads it, optionally persists, and writes `{remove: every current value, append: every desired entry}` to it |
| `Sync.WritesReplaceWholeList` | src/index.js:109-134 | every write sends the whole desired set and removes every value the written list holds, overlap with the appended values or not (full replace) |
| `Sync.ScanTargeted` | src/index.js:94-134 | each call of a group's scan reads or writes a list named `prefix + group`, or persists under `prefix + group + ".json"` only when persisting is enabled; every persisted and written payload appends the whole desired set, and a write's remove half ends with the written list's values (that a persist carries the same payload as the following write is `ScanWellOrdered`) |
| `Sync.ScanWellOrdered` | src/index.js:98-134 | within a group a list is read before it is written, and a persisted payload is the one written right after |
| `Sync.ScanPersistsWhenEnabled` | src/index.js:115-134 | with persisting enabled, every write of a group comes right after the persist of the same payload under `prefix + group + ".json"` |
| `Sync.RunGroupsConcat` | src/index.js:82-137 | groups run in configured order: the run over `gs1 + gs2` is the run over `gs1`, then the run over `gs2` unless a read failed |
| `Sync.RunGroupsTargeted` | src/index.js:82-134 | every call of the group loop reads or writes a list named `prefix + g`, or persists `prefix + g + ".json"`, for a configured group `g` |
| `Sync.RunGroupsWellOrdered` | src/index.js:82-137 | across all groups, reads precede writes and persists are followed by the write of the same payload |
| `Sync.RunGroupsPersistsWhenEnabled` | src/index.js:82-134 | with `STORE_R2` truthy or a scheduled run, every write of the group loop comes right after the persist of its payload |
| `Sync.RunGroupsAbortedIff` | src/index.js:82-107 | the group loop ends in a failed read iff some configured group has a list of its name that cannot be read |
| `Sync.RunGroupsNoMatchingList` | src/index.js:82-95 | when no list is named after any configured group, the group loop makes no call and does not fail |
| `Sync.MissingDatasetIs404` | src/index.js:47-67 | the outcome is the 404 reply with error `File not found in R2 bucket` iff a dataset object is missing; that outcome makes no list read, persist or write |
| `Sync.HandleTrace` | src/index.js:70-146 | a run past the dataset checks starts with the directory read, keeps reads before writes and persists before their writes, touches only lists and objects of configured groups, persists nothing unless `STORE_R2` is truthy or the run is scheduled, and otherwise puts every payload right before its write, and replies `Gateway lists updated!` only on demand |
| `Sync.HandleTargeted` | src/index.js:94-123 | every call after the directory read reads or writes a list named after a configured group or persists its object, and nothing is persisted unless `STORE_R2` is truthy or the run is scheduled |
| `Sync.HandleWritesPersisted` | src/index.js:115-134 | when persisting is enabled, every write of a run comes right after the persist of its payload |
| `Sync.HandleAbortedIff` | src/index.js:46-107 | the run is aborted iff both datasets are present and either the directory read fails or some configured group has a list of its name that cannot be read |
| `Sync.HandleAbortEndsAtFailedRead` | src/index.js:70-107 | an aborted run's trace is the failed directory read alone, or ends with the item read that failed |
| `Sync.NoMatchingListOnlyReadsDirectory` | src/index.js:70-137 | with the datasets present and no list named after a configured group, the run only reads the directory and finishes |
| `Handler.BuildAppend` | src/index.js:84-92 | the nested device/roster loops build exactly `Resolve(devices, roster, group)` |
| `Handler.CollectRemove` | src/index.js:109-113 | the item loop appends exactly the read's values to the remove half |
| `Handler.ReconcileGroup` | src/index.js:94-135 | the directory loop makes exactly the calls of `ScanLists`, stopping at a failed read |
| `Handler.HandleRequest` | src/index.js:46-146 | the handler's outcome and trace are exactly those of `Handle` |
| `Scenarios.OneMatchingPair` | src/index.js:86-92 | device `a@x.com`/`d1`/`laptop`/`10.0.0.1` in group `g1` gives the single entry `USER:a@x.com; DEVICE:d1; TYPE:laptop` with value `10.0.0.1` |
| `Scenarios.OtherGroupGivesNothing` | src/index.js:88 | the same device whose user is only in `g2` gives nothing for `g1` |
| `Scenarios.ReplaceTwoValues` | src/index.js:94-134 | a list holding `10.0.0.1` and `10.0.0.2` is read and written with both values removed and the desired entries appended |
| `Scenarios.TwoListsAccumulate` | src/index.js:84-134 | with two lists of the group's name, the second payload removes the values of both lists |
| `Scenarios.MissingDevices` | src/index.js:47-55 | a missing devices object gives the 404 reply |

## Left out

- Request routing: URL parsing and the 204 reply for `favicon.ico` (src/index.js:38-44). They depend on the platform `URL` type and are not reconciliation logic.
- Configuration and credential loading (src/index.js:28-35), the HTTP URLs, methods and headers, `Response` construction, and `console.log` (src/index.js:108). This is plumbing. The model takes the configuration as a `Config` value.
- The async `fetch`/`scheduled` entry points (src/index.js:13-23). They appear only as the `Invocation` value. The 404 reply of a scheduled run is modelled too, although the cron trigger discards it.
- JSON parsing and `JSON.stringify`: datasets and payloads are already structured values. A dataset that is not an array, or rows with missing fields (which JavaScript would print as `undefined`), are not modelled.
- `STORE_R2` is modelled as the boolean value of its truthiness. A string such as `"false"` is truthy in the source.
- `GROUPS` is modelled as a sequence of group names. A plain string would be iterated character by character in the source.
- A directory reply whose `result` is null is iterated zero times in the source. The model expresses this as an empty directory, `Some([])`.
- Failures of the PATCH write and of the bucket put are not modelled: every write and persist completes. Only failed reads abort the run. The source checks no HTTP status, so an error reply counts as success there as well.
- The item store is a snapshot taken before the run. A list read twice in one run (a group named twice in `GROUPS`, or a list id listed twice in the directory) returns its pre-run items in the model, whereas in the source the second read would see the earlier PATCH. The model's traces are exact for runs where each list is read at most once.
- Concurrency between overlapping invocations, and pagination of the list API, are not modelled. The source handles neither.
