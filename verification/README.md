# Minimum wages of Japan: effective-date merge and lookup

A Dafny model of the lookup core of `minimum-wages-jp-js`. The library ships
two wage schedules for the Japanese prefectures: the rates in force now
("current") and the rates announced for later ("next"). It answers two
questions:

- `getMinimumWages(forceGetNextYear, date)` gives the schedule that applies at
  `date`.
- `getMinimumWage(prefectureName, forceGetNextYear, date)` gives one
  prefecture's record from that schedule.

Both are built on one merge. It walks "next" in order and keeps each record
whose effective start is at or before `date`, so the start instant itself
counts as in force. Otherwise it substitutes the first "current" record with
the same prefecture name. It throws when there is no such record. Force mode
skips the merge and returns "next" verbatim.

Modules:

- `Wrappers` (`wrappers.dfy`): `Option` and `Result`.
- `Wages` (`wages.dfy`): the record, the first-match search `Find` (the
  array `find` with a name-equality callback) and its lemmas.
- `MinimumWageLookup` (`minimum_wage_lookup.dfy`): the per-record step, the
  merge, force mode and the two entry points.
- `MinimumWageProperties` (`minimum_wage_properties.dfy`): the properties
  relating the merge, the date boundary, force mode and the bulk and
  single-prefecture paths.
- `MinimumWageScenarios` (`minimum_wage_scenarios.dfy`): worked Tokyo and
  Osaka scenarios with concrete instants.

Modelling choices:

- Both schedules are parameters (`current`, `next`). The library reads them
  from JSON files on every call.
- Instants are integers: epoch milliseconds. How a date string becomes an
  instant is left out. "Same or after" is `effectiveStartDate <= date`.
- A record is `MinimumWage(prefectureName, hourlyWage, effectiveStartDate)`.
- An undefined prefecture name is `Option.None`. The error is
  `PrefectureNameMissing`.
- The thrown "Something wrong!" error is `DataInconsistency(name)`. It carries
  the name of the first record that could not be resolved.
- The empty-object sentinel for an unknown prefecture is `Success(None)`, so
  it cannot be mistaken for a real record.

Two consequences of the code worth stating:

- The single-prefecture lookup merges the WHOLE schedule first. It fails
  whenever any prefecture cannot be resolved, not only the requested one
  (`GetMinimumWage`, `OsakaScenario`).
- The lookup of a prefecture returns the bulk result's record at that
  prefecture's FIRST index in "next" (`LookupIsFirstBulkMatch`). So "the bulk
  result equals the per-prefecture lookups" holds index by index only when
  names in "next" are unique (`BulkAgreesWithLookup`).

## Model

| member | source | states |
|---|---|---|
| Wages.Find | src/GetMinimumWage.ts:35-38 | `None` exactly when no record has the name; otherwise the record at the first index with that name |
| MinimumWageLookup.ResolveRecord | src/GetMinimumWage.ts:58-74 | fails exactly when the record is not yet in force and "current" lacks its prefecture, with that prefecture's name; otherwise the "next" record once in force, else the first same-named "current" record; the prefecture never changes |
| MinimumWageLookup.CreateCurrentMinimumWages | src/GetMinimumWage.ts:47-78 | succeeds exactly when every "next" record is resolvable; on success it is index-aligned with "next", keeps each prefecture, and each entry is resolved by effective date; on failure the error names the first unresolvable record in order |
| MinimumWageLookup.GetMinimumWages | src/GetMinimumWage.ts:14-20 | force mode yields "next" unchanged; otherwise the merge's success condition and per-index resolution; same length and prefectures as "next" either way |
| MinimumWageLookup.GetMinimumWage | src/GetMinimumWage.ts:22-45 | an absent name fails with `PrefectureNameMissing`; otherwise it fails exactly when, and with the same error as, the bulk call; the sentinel appears exactly when the bulk result lacks the name; a found record carries the name and is the first bulk record with it |
| MinimumWageProperties.MergeAt | src/GetMinimumWage.ts:56-74 | at each index of a successful merge: same prefecture as "next"; the "next" record when date >= its start (boundary included); before that, what `Find` returns from "current" for that prefecture |
| MinimumWageProperties.MergeKeepsUniqueNames | src/GetMinimumWage.ts:56-58 | unique prefecture names in "next" stay unique in a successful merge |
| MinimumWageProperties.AllEffectiveMergeIsNext | src/GetMinimumWage.ts:56-62 | when every "next" record is in force, the merge cannot fail and returns "next" exactly, whatever "current" holds |
| MinimumWageProperties.ForceModeIgnoresDate | src/GetMinimumWage.ts:80-84 | with the flag set, the bulk call yields "next" and the lookup yields the first "next" record of the name, for any date and any "current" |
| MinimumWageProperties.LookupIsFirstBulkMatch | src/GetMinimumWage.ts:29-38 | for a prefecture whose first index in "next" is k, the lookup returns the bulk result's record at k, in either mode, duplicates allowed |
| MinimumWageProperties.BulkAgreesWithLookup | src/GetMinimumWage.ts:27-44 | with unique names in "next", looking up each prefecture of "next" returns the bulk result's record at that index |
| MinimumWageProperties.LookupBeforeStart | src/GetMinimumWage.ts:64-73 | before a prefecture's "next" start (and with the merge succeeding) the lookup returns its first "current" record, which exists |
| MinimumWageProperties.LookupFromStart | src/GetMinimumWage.ts:59-61 | from a prefecture's "next" start onwards, boundary included (and with the merge succeeding), the lookup returns that "next" record |
| MinimumWageProperties.LookupUnknownNameIsSentinel | src/GetMinimumWage.ts:40-42 | a name missing from "next" yields the sentinel, not an error, in either mode once the schedule is available |
| MinimumWageScenarios.TokyoScenario | src/GetMinimumWage.ts:59-61 | Tokyo at 1000 then 1100 from 2024-10-01: 1000 on 2024-09-30, 1100 on 2024-10-01, 1100 when forced in 2023; an unknown prefecture yields the sentinel |
| MinimumWageScenarios.OsakaScenario | src/GetMinimumWage.ts:69-70 | Osaka scheduled in "next" but missing from "current": before its start both the bulk call and Tokyo's lookup fail naming Osaka; from its start the merge returns "next" |

## Left out

- Reading `current.json` and `next.json` from disk: file I/O. The schedules are parameters, and a missing or unreadable file is not modelled.
- `JSON.parse` and `humps.camelizeKeys`: foreign parsing and key-renaming libraries. Records arrive already in the normalised shape, and malformed JSON is not modelled.
- dayjs parsing, `.tz()` and the process-wide default zone `Asia/Tokyo`: library date handling. Start dates and the query date are integer instants; how date strings become instants, and in which zone, is not modelled. The behaviour of unparseable date strings, where both dayjs comparisons are false, is not modelled.
- The `new Date()` default for the date: it reads the clock. The date is always an explicit parameter.
- The `false` default for `forceGetNextYear`: Dafny has no default arguments here. The flag is always an explicit parameter.
- Record fields other than prefecture name, hourly wage and start date: they pass through unchanged and play no part in the logic.
- The prefecture-name union type: names are plain strings. The lookup's argument check only distinguishes an absent name from a present one.
- The error message texts: the two failures are distinct `Error` variants.
