# miner-coffee: a verified model of the Friday meetup groups

miner-coffee schedules a coffee meetup for a team every Friday. Its parts are:

- a roster of active people (`pessoas`), stored in MySQL;
- for each month, one group per Friday, drawn from the roster so that nobody meets in two weeks running if the roster allows it;
- the stored groups (`grupos_gerados`), which a later request for the same month reuses unless the roster has changed;
- a browser client that shows the Fridays of the selected month, steps between months, and numbers the groups it displays.

This project models that core in Dafny and proves properties of the model:

- `common.dfy`: order-preserving filters, distinctness, the lexicographic order on integer keys, and a stable insertion sort that stands for SQL `ORDER BY`.
- `calendar.dfy`: proleptic Gregorian dates.
  - The ISO 8601 weekday and the Fridays of a month.
  - The `YYYY-MM-DD` extended calendar-date format (section 4.1.2.2 of ISO 8601:2004) and the `YYYY-MM` month key.
  - Month arithmetic.
- `grouping.dfy`: the group drawing of `api-db.php`.
  - `getFridays` and `createGroupsWithCooldown`, with its cooldown and two relaxation tiers.
  - `createOneGroupPerWeek` and `createSingleGroup`, which nothing in the source calls.
  - `shuffle` is an arbitrary permutation.
- `storage.dfy`: the `Database` class of `database.php`. It is a class whose two tables are `seq` fields, changed in place by its methods. A row's position in the table stands for its `AUTO_INCREMENT` id.
- `groups_action.dfy`: the `groups` request of `api-db.php`.
  - Clamping the size and checking the month pattern.
  - Judging stored rows stale.
  - Reshaping stored rows back into weeks.
  - The generation loop.
  - The whole request as one method over a `Database`.
- `client.dfy`: the calendar and numbering logic of `script.js`.

## Model

| member | source | states |
|---|---|---|
| Calendar.DaysInMonth | api-db.php:348 | the length of a month under the Gregorian leap-year rule, between 28 and 31 days |
| Calendar.IsoWeekday | api-db.php:352-355 | the ISO weekday (`N`) of a date, 1 = Monday to 7 = Sunday |
| Calendar.NextDay | script.js:134 | advancing a date by one day gives a valid date |
| Calendar.NextDayWeekday | script.js:130-135 | the next day is one day later and its weekday is the following one |
| Calendar.FridaysUpToSpec | api-db.php:349-358 | the walk over days 1..n keeps exactly the Fridays of those days, ascending |
| Calendar.FridaysSpec | api-db.php:340-361 | the month's list holds only Fridays of that month, ascending, and every Friday of the month |
| Calendar.FirstFriday | api-db.php:349-355 | the first Friday of a month falls on day 1 to 7 |
| Calendar.FridayIff | api-db.php:352-355 | a day is a Friday exactly when it is the first Friday plus a multiple of seven |
| Calendar.FridaysUpToArithmetic | api-db.php:349-358 | the Fridays up to day n are the first Friday plus 0, 7, 14, …, and how many there are |
| Calendar.FridaysArithmetic | api-db.php:340-361 | every month has four or five Fridays, each seven days after the previous one |
| Calendar.FridaysFebruary2024 | api-db.php:340-361 | February 2024 (leap year) has Fridays 2, 9, 16 and 23 |
| Calendar.FridaysFebruary2026 | api-db.php:340-361 | February 2026 has Fridays 6, 13, 20 and 27 |
| Calendar.FridaysMay2026 | api-db.php:340-361 | May 2026 has five Fridays, from the 1st to the 29th |
| Calendar.Pad2 | api-db.php:187 | `str_pad(.., 2, '0', STR_PAD_LEFT)` gives exactly two digits |
| Calendar.Pad2Value | api-db.php:187 | the two padded digits read back as the number |
| Calendar.Pad4Value | database.php:166 | the four-digit year of `Y` reads back as the year |
| Calendar.FormatDate | database.php:225 | `format('Y-m-d')` has ten characters with dashes at positions 4 and 7 |
| Calendar.ParseDate | database.php:225 | the reader of the `Y-m-d` text that `format('Y-m-d')` stores yields only valid dates with a four-digit year, or nothing; `Calendar.ParseFormatDate` shows it inverts the format |
| Calendar.ParseFormatDate | database.php:225 | the stored `Y-m-d` text of a date reads back as the same date |
| Calendar.KeyYear | api-db.php:186 | the year part of a `YYYY-MM` key is between 0 and 9999 |
| Calendar.KeyMonth | api-db.php:186-187 | the month part of a key is between 0 and 99 |
| Calendar.FormatMonthKey | database.php:166 | `format('Y-m')` gives a well-formed month key |
| Calendar.MonthKeyRoundTrip | database.php:166 | a formatted key reads back as the same year and month |
| Calendar.PreviousMonth | database.php:164-165 | the month before, one month earlier in month count, for any month number: January goes to December of the year before, and months 00 and 13–99 overflow into the neighbouring years as `createFromFormat` reads them |
| Calendar.NextMonth | database.php:164 | the month after, one month later in month count |
| Calendar.MonthIndexInjective | database.php:164-166 | two months with the same month count are the same month |
| Calendar.PreviousNextInverse | database.php:164-165 | stepping back then forward, or forward then back, returns to the start |
| Calendar.PreviousMonthAsWritten | database.php:164-165 | the month that `createFromFormat` plus `modify('first day of last month')` reaches from today's day of the month: the previous month or the requested one |
| Calendar.PreviousMonthAsWrittenCases | database.php:164-165 | that month is the previous month exactly when today's day fits in the requested month, and the requested month itself otherwise |
| Calendar.PreviousMonthOverflowExample | database.php:164-165 | on the 31st, the lookup for April 2024 lands on April 2024 rather than March |
| Grouping.GetFridays | api-db.php:340-361 | `getFridays` returns the month's Fridays in ascending order; month 00 gives the Fridays of December of the year before; a month above 12 fails |
| Grouping.Pool | api-db.php:419-443 | the pool holds at least `groupSize` people unless it is the whole roster, and unless it is the whole roster nobody of week w-1 is in it |
| Grouping.PrefixOfShuffle | api-db.php:447-449 | the first k entries of a shuffle of the pool are a shuffled prefix of it |
| Grouping.CollectRecent | api-db.php:411-417 | the names gathered are the seed plus every name of weeks from..to-1 that exist |
| Grouping.AvailablePeople | api-db.php:401-446 | after exclusion and relaxation, the people available are the cooldown pool |
| Grouping.CreateGroupsWithCooldown | api-db.php:396-452 | the result is no group for an empty roster or a non-positive size, and otherwise one shuffled prefix of the pool |
| Grouping.WindowsArePreviousWeeks | api-db.php:411-435 | the two loop windows are weeks w-2 and w-1, and week w-1 |
| Grouping.WithoutSub | api-db.php:423 | `array_diff` keeps a sub-multiset of the roster: exactly the roster names that are not excluded |
| Grouping.PoolInRoster | api-db.php:423-443 | the pool is drawn from the roster and is no larger |
| Grouping.OutcomeShape | api-db.php:396-452 | exactly one group of min(size, roster) people, all from the roster and distinct when the roster is; or none, exactly when the roster is empty or the size is not positive |
| Grouping.CooldownHonoured | api-db.php:405-424 | when enough people remain, the group avoids weeks w-2 and w-1 and, in week 0, the previous month's last group |
| Grouping.RelaxationTiers | api-db.php:426-443 | tier 1 excludes only week w-1; tier 2 draws from the whole roster |
| Grouping.WithoutNothing | api-db.php:423 | excluding nobody keeps the whole roster in order |
| Grouping.CreateOneGroupPerWeek | api-db.php:383-394 | no group for an empty roster or a non-positive size, otherwise one shuffled prefix of the roster |
| Grouping.CooldownWithoutHistory | api-db.php:383-394 | with no history the cooldown draw is a `createOneGroupPerWeek` draw |
| Grouping.CreateSingleGroup | api-db.php:363-381 | the chunks hold exactly the roster, each of at most `groupSize` people, all but the last exactly `groupSize` |
| Storage.ActiveNames | database.php:88 | a name is listed exactly when an active person has it |
| Storage.Deactivate | database.php:140 | setting `ativo = 0` keeps every person and their names |
| Storage.DeactivateSpec | database.php:140 | after deactivating, the active names are the old ones minus that name, no name is lost, and names stay unique |
| Storage.RemovedNameBlocksReadd | database.php:140 | a removed name stays in the table inactive |
| Storage.RosterSpec | database.php:86-97 | the roster is sorted by name, without repeats, and holds exactly the active names |
| Storage.ActiveNamesDistinct | database.php:88 | unique names give a roster without repeats |
| Storage.WithoutMonthSpec | database.php:233-243 | `DELETE` keeps exactly the rows outside the month (and formation), each as often as before |
| Storage.WithoutMonthTwice | database.php:233-243 | deleting a month twice is deleting it once |
| Storage.WeekRows | database.php:216-228 | one row per group of the week |
| Storage.RowsOfSnoc | database.php:216-228 | the rows of a further week come after the rows of the weeks before |
| Storage.Database.constructor | database.php:68-80 | a fresh database holds the eleven default people, active, and no groups |
| Storage.Database.GetPessoas | database.php:86-97 | the active names, sorted by name, without repeats |
| Storage.Database.LimparTodosGrupos | database.php:155-159 | every group row is deleted and the people are kept |
| Storage.Database.AdicionarPessoa | database.php:99-125 | an active duplicate fails with both tables unchanged; an inactive one fails on the unique key; otherwise the person is appended active and all groups are deleted |
| Storage.Database.RemoverPessoa | database.php:127-153 | a name with no active person fails with nothing changed; otherwise that person is deactivated and all groups are deleted |
| Storage.Database.GetUltimoGrupoDoMesAnterior | database.php:162-181 | the members of the previous month's last group of this size, or nothing, for every key month from 00 to 99; fails exactly for a parameter that is not a seven-character `YYYY-MM` key (among pattern-checked parameters, the key with a trailing newline, which `createFromFormat` rejects) |
| Storage.Database.GetGruposPorMesComFormacao | database.php:197-208 | the selected rows, in week and group order |
| Storage.Database.LimparGruposMes | database.php:233-243 | the month's rows (of that formation, if given) are deleted and the rest kept in order |
| Storage.Database.SalvarGrupos | database.php:210-231 | the month's rows of that formation are replaced by one row per group, week by week |
| Storage.Database.InsertWeek | database.php:216-228 | the rows of one week are appended |
| Storage.Database.UpdateGrupoEspecifico | database.php:255-283 | it fails with "no groups" exactly when no row has the date, and with an invalid index when the index is out of range, changing nothing; otherwise only the members of the index-th row of the date, in group order, change |
| Storage.Database.GetDatasDisponiveisDoMes | database.php:285-294 | the distinct dates (`data_sexta`) of the month's rows, strictly ascending |
| Storage.SelectedRowsCount | database.php:197-208 | the `WHERE` keeps each selected row as often as the table has it and nothing else |
| Storage.Query | database.php:197-208 | the result is a permutation of the selected rows, sorted by week and group number |
| Storage.SelectedRowsAll | database.php:197-208 | selecting from rows that all qualify keeps them all |
| Storage.RowsOfFields | database.php:216-228 | every stored row carries the month, size, formation and a week number of the saved weeks |
| Storage.RowsOfSorted | database.php:216-228 | rows stored from weeks with increasing numbers are in week and group order |
| Storage.QueryAfterSave | database.php:197-231 | after saving a month, the query for it returns exactly the rows saved, in order |
| Storage.SelectedRowsAfterSave | database.php:197-231 | when the kept rows select nothing, the query sees only the saved rows |
| Storage.SavedRowsSelected | database.php:197-231 | every saved row matches the query for its month, formation and size |
| Storage.SelectedRowsNone | database.php:197-243 | after the delete, nothing of that month and formation is selected |
| Storage.SelectedRowsAppend | database.php:197-208 | selection distributes over concatenation |
| Storage.DatePositions | database.php:257-259 | every position it lists is a row of that date |
| Storage.DatePositionsSpec | database.php:257-259 | every row of the date is listed exactly once, in non-decreasing group number |
| Storage.LastRow | database.php:168-171 | a row of that month and size with the greatest (week, group), or none exactly when there is no such row |
| Storage.LastRowUnaffected | database.php:168-171 | deleting another month's rows does not change that month's last row |
| Storage.PreviousGroup | database.php:162-181 | a group carried over is the decoded members of a row of this size from the month just before the requested one |
| Storage.PreviousGroupAbsent | database.php:162-181 | with no row of this size in the month before, nothing is carried over |
| Storage.PreviousGroupUnaffected | database.php:162-181 | deleting the month's own rows does not change the previous month's last group |
| Storage.MonthDates | database.php:287 | a date is listed exactly when some row of the month has it |
| Storage.DistinctDatesSpec | database.php:287 | `DISTINCT` over sorted dates keeps every date once, strictly ascending |
| GroupsAction.ClampGroupSize | api-db.php:93 | the size is in [2,15], 2 when absent, the request when it fits, clamped otherwise |
| GroupsAction.MatchesMonthPattern | api-db.php:96 | a matching month parameter starts with a well-formed key |
| GroupsAction.FormattedKeyAccepted | api-db.php:96 | every formatted key passes the pattern and reads back as its year and month |
| GroupsAction.TrailingNewlineAccepted | api-db.php:96 | "2024-05\n" passes the pattern though it is not a key; nothing of another length passes |
| GroupsAction.ParseFormation | api-db.php:106 | single exactly for the parameter "single" |
| GroupsAction.CheckStale | api-db.php:106-140 | single: the first row's count differs from the roster; multiple: the distinct week-1 names differ in number from it; a failed decode is fatal |
| GroupsAction.WeekOneNamesErr | api-db.php:126-131 | once a week-1 row fails to decode, the merge fails |
| GroupsAction.Place | api-db.php:164-167 | a keyed assignment overwrites that key in place or appends a new one |
| GroupsAction.RowGroup | api-db.php:161-168 | a stored row yields its decoded members, or its raw text as a one-name group when it does not decode, so no row is dropped |
| GroupsAction.Values | api-db.php:171-181 | `array_values` keeps one group per key, in order |
| GroupsAction.ReshapeRows | api-db.php:142-182 | the loop computes the reshape of the stored rows |
| GroupsAction.ReshapeStep | api-db.php:147-169 | one pass of the loop closes the current week when the row starts a new one and puts the row's group under key `numero_grupo - 1`, as `Step` defines |
| GroupsAction.FoldRowsAppend | api-db.php:147-169 | folding two row runs is folding one after the other |
| GroupsAction.FoldWeekRows | api-db.php:147-169 | folding one week's rows builds that week's groups, numbered in order |
| GroupsAction.ReshapeSaved | api-db.php:142-182 | reading back what `salvarGrupos` stored gives the saved weeks |
| GroupsAction.SavedFold | api-db.php:147-169 | the fold over saved rows closes every week but the last and holds the last open |
| GroupsAction.GeneratedNumbering | api-db.php:202-222 | one week per Friday, in order, numbered 1, 2, 3, … |
| GroupsAction.GeneratedSnoc | api-db.php:202-222 | each new week sees all weeks generated before it in the month |
| GroupsAction.GenerateWeeks | api-db.php:202-222 | the loop yields a generated month; for single it keeps at most the first group |
| GroupsAction.WithoutLowerBound | api-db.php:423 | excluding a set removes at most one person per excluded name |
| GroupsAction.GeneratedWeekSize | api-db.php:202-222 | every week of a generated month holds min(size, roster) people |
| GroupsAction.GeneratedMonthCooldown | api-db.php:202-222 | with a roster of at least three groups' worth, no one meets in two consecutive weeks, nor in week 1 after the previous month's last group |
| GroupsAction.WeekOneNamesSaved | api-db.php:126-131 | the week-1 names of stored rows are the members of week 1 |
| GroupsAction.SavedGenerationStaleIff | api-db.php:106-140 | a freshly stored month is judged stale on the next request exactly when the roster is larger than the group size |
| GroupsAction.RowsOfPrefix | database.php:216-228 | the rows of the first weeks are a prefix of all the rows |
| GroupsAction.GeneratedWeeksNonEmpty | api-db.php:209-214 | with a non-empty roster every generated week has a group |
| GroupsAction.PartitionedMonthReused | api-db.php:106-140 | when week 1's groups partition a roster without repeats, the staleness check of the multiple formation keeps the stored month |
| GroupsAction.NextRequestAfterGeneration | api-db.php:91-235 | after a generation, the next request's query returns the stored rows, they reshape back to the weeks, and they are stale exactly when the roster exceeds the size |
| GroupsAction.Regenerate | api-db.php:184-229 | a month above 12 fails; a key with a trailing newline is fatal; otherwise a generated month over the requested Fridays (month 00: the previous December's) is stored in place of the month's rows of that formation |
| GroupsAction.HandleGroups | api-db.php:91-235 | a bad pattern is refused with nothing changed; a fatal decode leaves the table; fresh rows are reshaped and returned; stale or absent rows lead to a generation from the roster, stored, with the previous month's last group as carry-over |
| Client.JsYear | script.js:128 | `new Date` reads years 0 to 99 as 1900 + year |
| Client.GetFridaysInMonth | script.js:126-138 | the walk gives the Fridays of the month, ascending; no dates for a month outside 1..12 |
| Client.ChangeMonth | script.js:352-355 | the new month is `direction` months from the old one, with a month in 1..12 |
| Client.ChangeMonthSteps | script.js:352-355 | stepping ±1 is the next or previous month; December+1 is January of the next year and January-1 is December of the year before |
| Client.ChangeMonthRoundTrip | script.js:352-355 | stepping back undoes a step |
| Client.NatText | script.js:355 | a year prints as decimal digits |
| Client.ChangeMonthText | script.js:355 | the text ends in a dash and a two-digit, zero-padded month |
| Client.NatTextFourDigits | script.js:355 | a four-digit year prints as its padded form |
| Client.ChangeMonthTextIsKey | script.js:355 | for a four-digit year, the month text is the server's key, passes its pattern and names the month stepped to |
| Client.ShortYearRefused | script.js:355 | below year 1000 the text is shorter than a key and the server refuses it |
| Client.RequestedSize | script.js:370-373 | only the multiple formation sends a group size |
| Client.CanGenerate | script.js:184-188 | an enabled button implies a non-empty roster and a request that passes the guard; for the two formations it is exactly that |
| Client.GenerateRefused | script.js:362 | a request that passes the guard has a month and never sends a group size of 0 |
| Client.EnabledButtonPassesGuard | script.js:184-188 | an enabled generate button always gets past the guard of `generateGroups`, which alone lets an empty roster through |
| Client.RequestedSizeOnServer | script.js:370-373 | the server gives single the default size 2 and keeps a button size from 2 to 15 |
| Client.Numbering | script.js:399-428 | one title number per group of every week |
| Client.DisplayGroups | script.js:390-441 | the loop's titles are the numbering of the weeks |
| Client.NumberingPositions | script.js:399-428 | group j of week i is titled by the number of groups before it plus one |
| Client.NumberingConsecutive | script.js:399-428 | read in display order, the titles run 1, 2, 3, … up to the number of groups, never restarting per week |

## Left out

- HTTP dispatch, headers, CORS, reading `php://input`, `json_encode` output, `error_log` and the other actions of `api-db.php` (`people`, `availableDates`, `updateGroup`, `addPerson`, `removePerson`). The model keeps only the database methods those actions call.
- The PDO connection, `CREATE TABLE`/`ALTER TABLE`, the seed insert beyond the initial state, transactions and concurrent requests.
- JSON encoding and decoding. A stored member list is either decoded names or undecodable text.
- MySQL collation. Names are ordered by code point, and `ORDER BY` ties keep table order.
- Timezones (`America/Sao_Paulo`) and locale formatting.
- The JavaScript `Date` time-value limit of ±8.64e15 ms (about years −271821 to 275760). Past it `changeMonth` prints `NaN-NaN`; the model's dates are unbounded.
- The reflection call is modelled as a direct call. PHP errors (as opposed to exceptions) are not caught, so the model turns the one that can occur there into a fatal outcome.
- `intval` parsing of the size parameter. The model takes its integer result.
- `shuffle` randomness. Any permutation may come out.
- The DOM, `fetch` and the event listeners of `script.js`. The invalid-week and invalid-group branches of `displayGroups` are also left out, because the typed weeks here cannot be malformed.
- Grouping.CreateSingleGroup: requires a non-empty roster to come with a positive size. Otherwise the source loop never ends. Neither `createSingleGroup` nor `createOneGroupPerWeek` is called anywhere in the source (the request uses `createGroupsWithCooldown` for both formations); both are modelled as they are written.
- Storage.PreviousGroup: when the month before falls before January 0000 or after December 9999 it has no four-digit key, and every stored month passed the four-digit pattern, so the model returns no group instead of querying a five-digit or negative key.
- Storage.Database.GetUltimoGrupoDoMesAnterior: uses the corrected previous month (see Findings). The day-of-month dependence of the code as written is modelled separately in `Calendar.PreviousMonthAsWritten`, for months 01–12 only.
- Storage.Database.AdicionarPessoa: compares names by exact equality. Under MySQL's default case-insensitive collation, `ana` matches an existing `Ana`, so the source refuses such a name as a duplicate, or on the unique key, where the model appends it.
- Storage.Database.RemoverPessoa: compares names by exact equality. Under MySQL's default case-insensitive collation, removing `ana` deactivates an active `Ana`, where the model reports the name as not found.
- The `multiple` formation draws only one group per week, as the code does, rather than partitioning the roster.

## Findings

| source | as written | input that shows it | evidently intended | confidence | as-written member | corrected member |
|---|---|---|---|---|---|---|
| database.php:164-165 | `createFromFormat('Y-m', $mes)` takes today's day of the month. On day 29–31 in a shorter month the date overflows into the next month, so `first day of last month` lands on the requested month itself | a request for `2024-04` made on the 31st of any month looks up April 2024 instead of March 2024 | the calendar month before the requested one, whatever today's date | not executed | Calendar.PreviousMonthAsWritten, Calendar.PreviousMonthOverflowExample | Calendar.PreviousMonth, Calendar.PreviousNextInverse |
| api-db.php:106-140 | the staleness check compares the roster size with the first row's member count (single) or the number of distinct week-1 names (multiple). Generation draws one group of at most `groupSize` people per week, so whenever the roster is larger than the group size a freshly stored month is judged stale on the very next request. The reuse branch then never serves a generated month, every request reshuffles, and an `updateGroup` edit is overwritten | a roster of 4 people and group size 2: the next request with the same roster regenerates the month | an unchanged roster reuses its stored groups; for the multiple formation, week 1's groups partition the roster so the distinct-name count equals the roster size | not executed | GroupsAction.SavedGenerationStaleIff, GroupsAction.NextRequestAfterGeneration | GroupsAction.PartitionedMonthReused |
