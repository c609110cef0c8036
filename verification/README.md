# Snapshot cleanup: selection rule model

This project models the one piece of decision logic in an HTTP-triggered cloud
function. The function lists a subscription's disk snapshots, selects the ones
old enough to remove, reports them, and deletes them when asked. Its pieces are:

- The lister's normalisation. Each provider snapshot object becomes a record of
  name, identifier, creation time, disk type and resource group. The disk type
  is OS when the object carries a non-empty operating-system tag and Data
  otherwise (module `Snapshots`).
- The age of a snapshot in whole days. This is the `days` part of the elapsed
  time, so it rounds down, and a snapshot created in the future has a negative
  age (module `Ages`). Timestamps are integers counting microseconds on one UTC
  epoch. The current time `now` is a parameter.
- The exclusion string. The source splits it on commas with Python's
  `str.split` semantics. Every comma ends a token and empty tokens are kept, so
  the empty default yields `[""]` (module `Tokens`).
- The selection rule (module `Selection`). A record is kept when all three of
  these hold:
  - its age is at least the threshold for its disk type;
  - its type is not excluded wholesale by `All_OS` or `All_Data`;
  - its identifier is not on the exclusion list.

  `Retained` follows the source's nested branches. `Eligible` states the same
  rule as one conjunction, and the properties are stated against it. `Filter`
  is the selection as a function, and `FilterSnapshots` is the source's
  append loop.
- The request handler's pure part (module `Handler`). It supplies the field
  defaults: seven days for each threshold, an empty exclusion string, no
  resource group and no deletion. It also runs the list → filter → report →
  delete pipeline. The provider enumeration is a function parameter that
  either returns objects or fails. A failure becomes a 400 response.

## Model

| member | source | states |
|---|---|---|
| Snapshots.Classify | snapshotdeletion.py:27 | a missing or empty OS tag gives Data; a non-empty tag gives OS |
| Snapshots.Normalize | snapshotdeletion.py:23-29 | name, id, creation time and resource group are copied unchanged; the disk type is OS exactly when the OS tag is truthy |
| Snapshots.NormalizeAll | snapshotdeletion.py:22-29 | one record per provider object, same length, position i is the normalisation of object i (order kept) |
| Snapshots.ListScope | snapshotdeletion.py:18-21 | listing is scoped to a resource group exactly when a non-empty group name is given, and then to that group |
| Ages.AgeInDays | snapshotdeletion.py:40 | the age d brackets the elapsed time: d days ≤ now − created < d + 1 days (floor, also for future timestamps) |
| Ages.AgeIsUnique | snapshotdeletion.py:40 | any whole number of days that brackets the elapsed time is the computed age |
| Ages.AgeAtLeast | snapshotdeletion.py:40-43 | age ≥ k days exactly when at least k × 86 400 000 000 microseconds have elapsed |
| Ages.AgeMonotone | snapshotdeletion.py:33-40 | a later clock never gives a smaller age |
| Tokens.Split | snapshotdeletion.py:78 | one more token than there are separators (so always at least one), and no token contains the separator |
| Tokens.JoinSplit | snapshotdeletion.py:78 | joining the tokens with the separator gives back the original string |
| Tokens.SplitJoin | snapshotdeletion.py:78 | splitting a join of one or more separator-free tokens gives those tokens back |
| Selection.RetainedIffEligible | snapshotdeletion.py:42-52 | the source's nested decision keeps a record exactly when it is old enough for its type, not type-excluded and not id-excluded |
| Selection.Filter | snapshotdeletion.py:32-54 | the output is no longer than the input and every output record is eligible |
| Selection.FilterMembership | snapshotdeletion.py:42-52 | a record is in the output exactly when it is in the input and eligible (both directions) |
| Selection.KeptPositions | snapshotdeletion.py:39-52 | the kept positions are strictly increasing, in range, and contain position i exactly when record i is eligible |
| Selection.FilterIsOrderedSubsequence | snapshotdeletion.py:34-54 | output record k is the input record at kept position k, so the output is an order-preserving subsequence |
| Selection.KeptAreOldEnough | snapshotdeletion.py:40-43 | every returned record's age is at least the OS threshold (OS) or the data threshold (Data) |
| Selection.WholesaleExclusion | snapshotdeletion.py:36-49 | with `All_OS` listed no OS record is returned; with `All_Data` listed no Data record is returned |
| Selection.ExcludedIdsAbsent | snapshotdeletion.py:51-52 | no returned record's id is on the exclusion list |
| Selection.Completeness | snapshotdeletion.py:42-52 | an input record that is old enough, not type-excluded and not id-excluded is returned |
| Selection.FilterConcat | snapshotdeletion.py:39-52 | filtering a concatenation is the concatenation of the filtered parts |
| Selection.FilterOfFilter | snapshotdeletion.py:32-54 | if a second setting keeps no record the first rejects, then filtering with the second equals filtering the first's output with the second |
| Selection.Idempotent | snapshotdeletion.py:32-54 | with fixed clock and parameters, filtering the output again changes nothing |
| Selection.SupersetExclusionsKeepLess | snapshotdeletion.py:36-52 | with the same thresholds, an exclusion list containing every token of another selects only records the other selects: its output is the other's output filtered again, and no longer |
| Selection.MoreExclusionsKeepLess | snapshotdeletion.py:36-52 | appending exclusion tokens only removes records: the new output is the old output filtered again, and no longer |
| Selection.LaterKeepsMore | snapshotdeletion.py:33-43 | a record selected at one time is still selected later: the earlier output is the later output filtered at the earlier time |
| Selection.FilterAgree | snapshotdeletion.py:42-52 | two settings that decide every input record alike produce the same output |
| Selection.EmptyTokenHarmless | snapshotdeletion.py:51-52 | when no input id is empty, an extra `""` exclusion token leaves the output unchanged |
| Selection.FilterSnapshots | snapshotdeletion.py:32-54 | the append loop produces exactly the selection `Filter` defines |
| Handler.ParseParams | snapshotdeletion.py:75-78 | absent thresholds default to 7 and given ones are used; the scope is a group exactly when a non-empty name is given, and then the named group; the exclusion tokens number at least one, contain no comma and re-join to the given string (or to "" when absent, giving `[""]`); deletion happens only when explicitly true |
| Handler.DeleteRequests | snapshotdeletion.py:61-64 | one delete call per record, in order, addressed by the record's resource group and name |
| Handler.Handle | snapshotdeletion.py:70-102 | a listing failure gives a 400 response whose body is "Error: " plus the message; otherwise the report holds exactly the eligible listed records, in listing order, and there is one delete call per reported record exactly when deletion is confirmed (none otherwise); the files written are exactly `filtered_snapshots.xlsx`, followed by `deleted_snapshots.xlsx` only on deletion |
| Handler.DefaultRequestSelectsWeekOld | snapshotdeletion.py:75-84 | a request with no fields lists the whole subscription, selects exactly what a seven-day threshold with an empty exclusion list selects (when no id is empty), and deletes nothing |

## Left out

- Provider credentials and client construction (lines 11-12), the two SDK enumeration calls (lines 19 and 21) and the SDK's iteration over results (line 22). These are cloud SDK I/O. The choice between them (lines 18-21) is modelled by `Snapshots.ListScope`. The enumeration is a function parameter that returns the provider's objects or an error.
- The provider object's fields are assumed to be readable as `name`, `id`, `time_created`, `os_type` and `resource_group`, as lines 24-28 read them. The SDK's object model is not part of this model, so whether each attribute exists is not checked.
- The clock (`datetime.utcnow()`, line 33) and timezone stripping (line 40). `now` is a parameter. All timestamps are microsecond counts on one UTC epoch.
- Spreadsheet encoding (lines 56-59). This is a foreign library. A report is represented by its file name and its records. A failed spreadsheet write (lines 58, 87, 93) would also become a 400 response (lines 100-102); such failures are not modelled, so in the model a 400 comes only from a listing failure.
- The delete calls themselves and their logging (lines 61-64). They are represented by the ordered list of (resource group, name) targets. An SDK exception part-way through the deletions is not modelled.
- Request-body parsing and response plumbing (lines 72, 96-98): JSON decoding, reading the file back, headers and MIME type. A malformed body gives a 400 in the source. The model takes the fields already decoded.
- Field types. Request fields are modelled with the types the handler expects: integer thresholds, string group and exclusion string, boolean confirmation. The source would pass a float threshold through to the comparison. A non-string exclusion value or a JSON null would make `.split` raise, which becomes a 400. Neither case is modelled.
- Handler.ParseParams: models only `Some(true)` as a confirmation. Python truthiness of non-boolean JSON values is not modelled, because the field is typed as a boolean.

## Notes

- Python's `timedelta.days` rounds the elapsed time down to whole days. Dafny's `/` with a positive divisor also rounds down, including for negative elapsed times, so no adjustment is needed.
- An empty exclusion string is meant to exclude nothing. In the code, the default `""` is split into `[""]`, and that token only matches an empty identifier. `Selection.EmptyTokenHarmless` and `Handler.DefaultRequestSelectsWeekOld` prove the two readings agree whenever no snapshot has an empty identifier.
